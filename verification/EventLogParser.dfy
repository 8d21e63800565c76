/** Parsing a whole event log into its measured records: which logs are accepted, and what they yield. */
module EventLogParser {
  import opened Common
  import opened EventLogFormat

  const MAX_EVENTS: nat := 4096

  /** One measured record: which of the four registers it extends, and with what. */
  datatype Event = Event(rtmr: nat, eventType: nat, digest: Bytes, data: Bytes)

  predicate AllPadding(b: Bytes) {
    forall i :: 0 <= i < |b| ==> b[i] == 0xFF
  }

  predicate AtPadding(b: Bytes) {
    |b| >= 4 && FromLe32(b) == PADDING
  }

  /** The event of a record: none for an informational one. */
  function EventOf(r: Record): (event: Option<Event>)
    requires RecordMeasured(r)
    ensures event.Some? ==> event.value.rtmr < 4 && |event.value.digest| == SHA384_LEN
  {
    if r.eventType == EV_NO_ACTION then None
    else Some(Event(r.index - 1, r.eventType, Sha384Of(r.digests)[0], r.data))
  }

  function Listed(event: Option<Event>): seq<Event> {
    if event.None? then [] else [event.value]
  }

  /** The records from the front of `b` on, when `n` events came before. */
  function ReadRecords(algs: seq<Algorithm>, b: Bytes, n: nat): Option<seq<Event>>
    decreases |b|
  {
    if b == [] then Some([])
    else if AtPadding(b) then if AllPadding(b) then Some([]) else None
    else if n >= MAX_EVENTS then None
    else
      var record := ReadRecord(algs, b);
      if record.None? then None
      else
        var events := Listed(EventOf(record.value.value));
        var more := ReadRecords(algs, record.value.rest, n + |events|);
        if more.None? then None else Some(events + more.value)
  }

  function ParseLog(log: Bytes): Option<seq<Event>> {
    var header := ReadHeader(log);
    if header.None? then None else ReadRecords(header.value.value.algs, header.value.rest, 0)
  }

  // ----- the grammar of accepted logs

  ghost predicate IsTail(tail: Bytes) {
    tail == [] || (|tail| >= 4 && AllPadding(tail))
  }

  ghost predicate RecordsOk(algs: seq<Algorithm>, records: seq<Record>) {
    forall i :: 0 <= i < |records| ==> RecordOk(algs, records[i]) && records[i].index != PADDING
  }

  ghost function EncodeRecords(algs: seq<Algorithm>, records: seq<Record>): Bytes
    requires RecordsOk(algs, records)
  {
    if records == [] then [] else EncodeRecord(algs, records[0]) + EncodeRecords(algs, records[1..])
  }

  /** The measured records, in order. */
  ghost function Measured(records: seq<Record>): seq<Event>
    requires forall i :: 0 <= i < |records| ==> RecordMeasured(records[i])
  {
    if records == [] then [] else Listed(EventOf(records[0])) + Measured(records[1..])
  }

  /** Before every record, fewer than the maximum number of events have been listed. */
  ghost predicate CountsOk(records: seq<Record>, n: nat)
    requires forall i :: 0 <= i < |records| ==> RecordMeasured(records[i])
    decreases |records|
  {
    records == [] || (n < MAX_EVENTS && CountsOk(records[1..], n + |Listed(EventOf(records[0]))|))
  }

  /** A header, records, then nothing or at least four 0xFF octets. */
  ghost predicate IsLog(log: Bytes, h: Header, records: seq<Record>, tail: Bytes) {
    && HeaderOk(h)
    && RecordsOk(h.algs, records)
    && CountsOk(records, 0)
    && IsTail(tail)
    && log == EncodeHeader(h) + (EncodeRecords(h.algs, records) + tail)
  }

  lemma PaddingStart(b: Bytes)
    requires |b| >= 4
    ensures AllPadding(b) ==> AtPadding(b)
  {
  }

  lemma RecordIsNotPadding(algs: seq<Algorithm>, r: Record, rest: Bytes)
    requires RecordOk(algs, r) && r.index != PADDING
    ensures EncodeRecord(algs, r) + rest != []
    ensures !AtPadding(EncodeRecord(algs, r) + rest)
  {
    hide U32, EncodeDigests, RecordMeasured, SizeOf;
    RecordLayout(algs, r, rest);
    var b := EncodeRecord(algs, r) + rest;
    U32Length(r.index);
    assert b == U32(r.index) + b[4..];
    ReadU32Front(r.index, b[4..]);
  }

  lemma U32Length(x: nat)
    requires x < U32_LIMIT
    ensures |U32(x)| == 4
  {
  }

  lemma {:induction false} RecordsDecode(algs: seq<Algorithm>, records: seq<Record>, tail: Bytes, n: nat)
    requires RecordsOk(algs, records) && CountsOk(records, n) && IsTail(tail)
    ensures ReadRecords(algs, EncodeRecords(algs, records) + tail, n) == Some(Measured(records))
    decreases |records|
  {
    hide ReadRecord, EncodeRecord, FromLe32, RecordMeasured, EventOf;
    if records == [] {
      assert EncodeRecords(algs, records) + tail == tail;
      if tail != [] {
        PaddingStart(tail);
      }
    } else {
      var r, later := records[0], records[1..];
      var rest := EncodeRecords(algs, later) + tail;
      assert EncodeRecords(algs, records) + tail == EncodeRecord(algs, r) + rest;
      RecordIsNotPadding(algs, r, rest);
      RecordDecode(algs, r, rest);
      RecordsDecode(algs, later, tail, n + |Listed(EventOf(r))|);
    }
  }

  lemma {:induction false} RecordsEncode(algs: seq<Algorithm>, b: Bytes, n: nat)
    returns (records: seq<Record>, tail: Bytes)
    requires |algs| < U32_LIMIT && ReadRecords(algs, b, n).Some?
    ensures RecordsOk(algs, records) && CountsOk(records, n) && IsTail(tail)
    ensures b == EncodeRecords(algs, records) + tail
    ensures ReadRecords(algs, b, n).value == Measured(records)
    decreases |b|
  {
    hide ReadRecord, EncodeRecord, FromLe32, RecordMeasured, EventOf;
    if b == [] || AtPadding(b) {
      records, tail := [], b;
      assert EncodeRecords(algs, records) + tail == b;
    } else {
      var read := ReadRecord(algs, b).value;
      RecordEncode(algs, b);
      IndexIsNotPadding(algs, b);
      var later;
      later, tail := RecordsEncode(algs, read.rest, n + |Listed(EventOf(read.value))|);
      records := [read.value] + later;
      assert records[1..] == later;
      assert EncodeRecord(algs, read.value) + (EncodeRecords(algs, later) + tail) ==
             EncodeRecord(algs, read.value) + EncodeRecords(algs, later) + tail;
    }
  }

  lemma IndexIsNotPadding(algs: seq<Algorithm>, b: Bytes)
    requires ReadRecord(algs, b).Some? && !AtPadding(b)
    ensures ReadRecord(algs, b).value.value.index != PADDING
  {
  }

  /**
   Exactly the logs of that form are accepted, and what is returned are their measured records
   in order.
   */
  lemma AcceptsExactlyLogs(log: Bytes, events: seq<Event>)
    ensures ParseLog(log) == Some(events) <==>
            exists h, records, tail :: IsLog(log, h, records, tail) && events == Measured(records)
  {
    if ParseLog(log) == Some(events) {
      var header := ReadHeader(log).value;
      HeaderEncode(log);
      var records, tail := RecordsEncode(header.value.algs, header.rest, 0);
      assert IsLog(log, header.value, records, tail);
    }
    if exists h, records, tail :: IsLog(log, h, records, tail) && events == Measured(records) {
      var h, records, tail :| IsLog(log, h, records, tail) && events == Measured(records);
      ParseUndoesEncode(h, records, tail);
    }
  }

  /** Parsing undoes the encoder of the format. */
  lemma ParseUndoesEncode(h: Header, records: seq<Record>, tail: Bytes)
    requires HeaderOk(h) && RecordsOk(h.algs, records) && CountsOk(records, 0) && IsTail(tail)
    ensures ParseLog(EncodeHeader(h) + (EncodeRecords(h.algs, records) + tail)) == Some(Measured(records))
  {
    hide ReadHeader, EncodeHeader, ReadRecords, EncodeRecords;
    HeaderDecode(h, EncodeRecords(h.algs, records) + tail);
    RecordsDecode(h.algs, records, tail, 0);
  }

  ghost predicate EventsOk(events: seq<Event>) {
    forall i :: 0 <= i < |events| ==> events[i].rtmr < 4 && |events[i].digest| == SHA384_LEN
  }

  /** Every returned event names one of the four registers and carries a 48-byte digest. */
  lemma {:induction false} ReadRecordsAreEvents(algs: seq<Algorithm>, b: Bytes, n: nat)
    requires n <= MAX_EVENTS && ReadRecords(algs, b, n).Some?
    ensures EventsOk(ReadRecords(algs, b, n).value)
    ensures n + |ReadRecords(algs, b, n).value| <= MAX_EVENTS
    decreases |b|
  {
    hide ReadRecord, FromLe32;
    if b != [] && !AtPadding(b) {
      var read := ReadRecord(algs, b).value;
      ReadRecordsAreEvents(algs, read.rest, n + |Listed(EventOf(read.value))|);
    }
  }

  lemma ParsedEventsAreMeasured(log: Bytes)
    requires ParseLog(log).Some?
    ensures EventsOk(ParseLog(log).value) && |ParseLog(log).value| <= MAX_EVENTS
  {
    ReadRecordsAreEvents(ReadHeader(log).value.value.algs, ReadHeader(log).value.rest, 0);
  }
}
