/**
 What a frame means as an event, said of its lines and of the text of the names: which lines make
 a frame readable, which event each name stands for, and what is refused.
 */
module SseEventLaws {
  import opened Common
  import opened Json
  import opened SseFraming
  import opened SseEvents

  /** The names that the framing proofs write out in octets. */
  lemma NamesAreText()
    ensures EVENT_FIELD == Ascii("event:") && DATA_FIELD == Ascii("data:")
    ensures MESSAGE_START == Ascii("message_start")
  {
  }

  // ----- characters

  /** A Unicode scalar value. */
  predicate Scalar(c: nat) {
    c <= 0x10FFFF && !(0xD800 <= c <= 0xDFFF)
  }

  /** The UTF-8 form of a character. */
  function Utf8(c: nat): Bytes
    requires Scalar(c)
  {
    if c < 0x80 then [c]
    else if c < 0x800 then [0xC0 + c / 64, 0x80 + c % 64]
    else if c < 0x10000 then [0xE0 + c / 64 / 64, 0x80 + c / 64 % 64, 0x80 + c % 64]
    else [0xF0 + c / 64 / 64 / 64, 0x80 + c / 64 / 64 % 64, 0x80 + c / 64 % 64, 0x80 + c % 64]
  }

  function Encoded(text: seq<nat>): Bytes
    requires forall i :: 0 <= i < |text| ==> Scalar(text[i])
  {
    if text == [] then [] else Utf8(text[0]) + Encoded(text[1..])
  }

  lemma FirstCharacter(c: nat, rest: Bytes)
    requires Scalar(c)
    ensures ValidUtf8(Utf8(c) + rest) <==> ValidUtf8(rest)
  {
    var b, n := Utf8(c) + rest, |Utf8(c)|;
    assert b[n..] == rest;
    var q := c / 64;
    var p := q / 64;
    assert c == 64 * q + c % 64 && q == 64 * p + q % 64;
  }

  /** Every text is valid once encoded, and every valid octet string is the encoding of a text. */
  lemma {:induction false} TextIsValid(text: seq<nat>)
    requires forall i :: 0 <= i < |text| ==> Scalar(text[i])
    ensures ValidUtf8(Encoded(text))
    decreases |text|
  {
    if text != [] {
      TextIsValid(text[1..]);
      FirstCharacter(text[0], Encoded(text[1..]));
    }
  }

  lemma FirstOf(b: Bytes) returns (c: nat)
    requires b != [] && ValidUtf8(b)
    ensures Scalar(c) && Utf8(c) <= b && ValidUtf8(b[|Utf8(c)|..])
  {
    if b[0] <= 0x7F {
      c := b[0];
    } else if b[0] <= 0xDF {
      c := TwoOctets(b[0], b[1]);
      assert b[..2] == [b[0], b[1]];
    } else if b[0] <= 0xEF {
      c := ThreeOctets(b[0], b[1], b[2]);
      assert b[..3] == [b[0], b[1], b[2]];
    } else {
      c := FourOctets(b[0], b[1], b[2], b[3]);
      assert b[..4] == [b[0], b[1], b[2], b[3]];
    }
  }

  lemma TwoOctets(x: int, y: int) returns (c: nat)
    requires 0xC2 <= x <= 0xDF && 0x80 <= y <= 0xBF
    ensures Scalar(c) && Utf8(c) == [x, y]
  {
    c := (x - 0xC0) * 64 + (y - 0x80);
    assert c / 64 == x - 0xC0;
  }

  lemma ThreeOctets(x: int, y: int, z: int) returns (c: nat)
    requires 0xE0 <= x <= 0xEF && 0x80 <= y <= 0xBF && 0x80 <= z <= 0xBF
    requires (x == 0xE0 ==> 0xA0 <= y) && (x == 0xED ==> y <= 0x9F)
    ensures Scalar(c) && Utf8(c) == [x, y, z]
  {
    var q := (x - 0xE0) * 64 + (y - 0x80);
    c := q * 64 + (z - 0x80);
    assert c / 64 == q && q / 64 == x - 0xE0;
  }

  lemma FourOctets(w: int, x: int, y: int, z: int) returns (c: nat)
    requires 0xF0 <= w <= 0xF4 && 0x80 <= x <= 0xBF && 0x80 <= y <= 0xBF && 0x80 <= z <= 0xBF
    requires (w == 0xF0 ==> 0x90 <= x) && (w == 0xF4 ==> x <= 0x8F)
    ensures Scalar(c) && Utf8(c) == [w, x, y, z]
  {
    var p := (w - 0xF0) * 64 + (x - 0x80);
    var q := p * 64 + (y - 0x80);
    c := q * 64 + (z - 0x80);
    assert c / 64 == q && q / 64 == p && p / 64 == w - 0xF0;
  }

  lemma {:induction false} ValidIsText(b: Bytes) returns (text: seq<nat>)
    requires ValidUtf8(b)
    ensures (forall i :: 0 <= i < |text| ==> Scalar(text[i])) && Encoded(text) == b
    decreases |b|
  {
    text := [];
    if b != [] {
      var c := FirstOf(b);
      assert |Utf8(c)| > 0;
      hide ValidUtf8, Utf8, Scalar;
      var n := |Utf8(c)|;
      var rest := ValidIsText(b[n..]);
      text := [c] + rest;
      assert text[0] == c && text[1..] == rest;
      assert b == Utf8(c) + b[n..];
    }
  }

  /** The characters with the Unicode property White_Space. */
  predicate White(c: nat) {
    || 0x09 <= c <= 0x0D || c == 0x20 || c == 0x85 || c == 0xA0 || c == 0x1680 || 0x2000 <= c <= 0x200A
    || c == 0x2028 || c == 0x2029 || c == 0x202F || c == 0x205F || c == 0x3000
  }

  lemma WhitespaceIs(c: nat, rest: Bytes)
    requires Scalar(c)
    ensures WhitespaceWidth(Utf8(c) + rest) == if White(c) then |Utf8(c)| else 0
  {
  }

  // ----- lines

  /** A blank line, with or without its carriage return, or a comment. */
  predicate Skipped(line: Bytes) {
    line == [] || line == [CR] || line[0] == 0x3A
  }

  predicate Has(line: Bytes, field: Bytes) {
    field <= line
  }

  /** What stands behind the field name, less a final carriage return and leading white space. */
  function ValueIn(line: Bytes, field: Bytes): Bytes
    requires Has(line, field)
  {
    TrimStart(StripCr(line[|field|..]))
  }

  predicate KnownLine(line: Bytes) {
    Skipped(line) || Has(line, Ascii("event:")) || Has(line, Ascii("data:"))
  }

  ghost predicate NoneHas(lines: seq<Bytes>, field: Bytes) {
    forall i :: 0 <= i < |lines| ==> !Has(lines[i], field)
  }

  /** Line i alone has the field, with this value. */
  ghost predicate OnlyAt(lines: seq<Bytes>, field: Bytes, i: int, value: Bytes) {
    && 0 <= i < |lines| && Has(lines[i], field) && ValueIn(lines[i], field) == value
    && forall k :: 0 <= k < |lines| && k != i ==> !Has(lines[k], field)
  }

  /** The value of a field: none if no line has it, otherwise that of the one line that has it. */
  ghost predicate FieldIs(lines: seq<Bytes>, field: Bytes, value: Option<Bytes>) {
    if value.None? then NoneHas(lines, field) else exists i :: OnlyAt(lines, field, i, value.value)
  }

  ghost predicate AllKnown(lines: seq<Bytes>) {
    forall i :: 0 <= i < |lines| ==> KnownLine(lines[i])
  }

  lemma StripThenCut(line: Bytes, n: nat)
    requires n <= |StripCr(line)|
    ensures n <= |line| && StripCr(line)[n..] == StripCr(line[n..])
  {
    if |line| > n {
      assert line[n..][|line| - n - 1] == line[|line| - 1];
    }
  }

  lemma PrefixSurvivesStrip(line: Bytes, field: Bytes)
    requires field != [] && field[|field| - 1] != CR
    ensures Has(line, field) <==> field <= StripCr(line)
    ensures Has(line, field) ==> StripCr(line)[|field|..] == StripCr(line[|field|..])
  {
    var text := StripCr(line);
    if Has(line, field) {
      assert line[..|field|] == field;
      assert |line| == |field| ==> line[|line| - 1] == field[|field| - 1];
      assert |field| <= |text| && text[..|field|] == field;
      StripThenCut(line, |field|);
    }
  }

  /** What one line adds. */
  lemma LineAdds(fields: Fields, line: Bytes)
    ensures Skipped(line) ==> AddLine(fields, line) == Some(fields)
                              && !Has(line, Ascii("event:")) && !Has(line, Ascii("data:"))
    ensures Has(line, Ascii("event:")) ==>
              && !Has(line, Ascii("data:"))
              && AddLine(fields, line) ==
                 if fields.event.Some? then None
                 else Some(fields.(event := Some(ValueIn(line, Ascii("event:")))))
    ensures Has(line, Ascii("data:")) ==>
              AddLine(fields, line) ==
              if fields.data.Some? then None else Some(fields.(data := Some(ValueIn(line, Ascii("data:")))))
    ensures !KnownLine(line) ==> AddLine(fields, line) == None
  {
    NamesAreText();
    FieldOctets();
    hide Ascii, TrimStart;
    PrefixSurvivesStrip(line, EVENT_FIELD);
    PrefixSurvivesStrip(line, DATA_FIELD);
    SkippedMeans(line);
    assert Has(line, EVENT_FIELD) ==> line[0] == EVENT_FIELD[0];
    assert Has(line, DATA_FIELD) ==> line[0] == DATA_FIELD[0];
  }

  lemma SkippedMeans(line: Bytes)
    ensures Skipped(line) <==> StripCr(line) == [] || StripCr(line)[0] == COLON
  {
  }

  /** Lines that are each closed by a line feed are read back as they are, less a carriage return. */
  lemma {:induction false} LinesReadBack(lines: seq<Bytes>)
    requires forall i, j :: 0 <= i < |lines| && 0 <= j < |lines[i]| ==> lines[i][j] != LF
    ensures Lines(Closed(lines)) == Stripped(lines)
    decreases |lines|
  {
    if lines != [] {
      var text, first := Closed(lines), lines[0];
      LinesReadBack(lines[1..]);
      assert text[..|first|] == first && text[|first|] == LF && text[|first| + 1..] == Closed(lines[1..]);
      IndexOfLfIs(text, |first|);
    }
  }

  function Closed(lines: seq<Bytes>): Bytes {
    if lines == [] then [] else lines[0] + [LF] + Closed(lines[1..])
  }

  function Stripped(lines: seq<Bytes>): seq<Bytes> {
    if lines == [] then []
    else
      var first := lines[0];
      [if first != [] && first[|first| - 1] == 0x0D then first[..|first| - 1] else first] + Stripped(lines[1..])
  }

  // ----- the fields of a frame

  /** What the lines leave of a field that had this value before. */
  ghost predicate Leaves(lines: seq<Bytes>, field: Bytes, before: Option<Bytes>, after: Option<Bytes>) {
    if before.Some? then after == before && NoneHas(lines, field) else FieldIs(lines, field, after)
  }

  lemma NoneHasCons(line: Bytes, rest: seq<Bytes>, field: Bytes)
    ensures NoneHas([line] + rest, field) <==> !Has(line, field) && NoneHas(rest, field)
  {
    var all := [line] + rest;
    assert all[0] == line && forall i :: 0 <= i < |rest| ==> all[i + 1] == rest[i];
    if !Has(line, field) && NoneHas(rest, field) {
      forall i | 0 <= i < |all|
        ensures !Has(all[i], field)
      {
        if i > 0 {
          assert all[i] == rest[i - 1];
        }
      }
    }
  }

  lemma NoneHasAt(lines: seq<Bytes>, field: Bytes, i: nat)
    requires NoneHas(lines, field) && i < |lines|
    ensures !Has(lines[i], field)
  {
  }

  lemma NoneHasIf(lines: seq<Bytes>, field: Bytes)
    requires forall i :: 0 <= i < |lines| ==> !Has(lines[i], field)
    ensures NoneHas(lines, field)
  {
  }

  lemma FieldIsCons(line: Bytes, rest: seq<Bytes>, field: Bytes, value: Option<Bytes>)
    ensures FieldIs([line] + rest, field, value) <==>
            if Has(line, field) then value == Some(ValueIn(line, field)) && NoneHas(rest, field)
            else FieldIs(rest, field, value)
  {
    var all := [line] + rest;
    NoneHasCons(line, rest, field);
    assert all[0] == line && forall i :: 0 <= i < |rest| ==> all[i + 1] == rest[i];
    hide ValueIn, Has, NoneHas;
    if value.Some? {
      var v := value.value;
      if FieldIs(all, field, value) {
        var i :| OnlyAt(all, field, i, v);
        if i == 0 {
          forall k | 0 <= k < |rest|
            ensures !Has(rest[k], field)
          {
            assert rest[k] == all[k + 1];
          }
          NoneHasIf(rest, field);
        } else {
          assert all[i] == rest[i - 1];
          assert OnlyAt(rest, field, i - 1, v);
        }
      }
      if Has(line, field) && v == ValueIn(line, field) && NoneHas(rest, field) {
        forall k | 0 < k < |all|
          ensures !Has(all[k], field)
        {
          assert all[k] == rest[k - 1];
          NoneHasAt(rest, field, k - 1);
        }
        assert OnlyAt(all, field, 0, v);
      }
      if !Has(line, field) && FieldIs(rest, field, value) {
        var i :| OnlyAt(rest, field, i, v);
        forall k | 0 <= k < |all| && k != i + 1
          ensures !Has(all[k], field)
        {
          if k > 0 {
            assert all[k] == rest[k - 1];
          }
        }
        assert OnlyAt(all, field, i + 1, v);
      }
    }
  }

  lemma AllKnownCons(line: Bytes, rest: seq<Bytes>)
    ensures AllKnown([line] + rest) <==> KnownLine(line) && AllKnown(rest)
  {
    hide KnownLine;
    var all := [line] + rest;
    assert all[0] == line && forall i :: 0 <= i < |rest| ==> all[i + 1] == rest[i];
    if KnownLine(line) && AllKnown(rest) {
      forall i | 0 <= i < |all|
        ensures KnownLine(all[i])
      {
        if i > 0 {
          assert all[i] == rest[i - 1];
        }
      }
    }
  }

  lemma {:induction false} LinesLeave(before: Fields, lines: seq<Bytes>, after: Fields)
    ensures AddLines(before, lines) == Some(after) <==>
            && AllKnown(lines)
            && Leaves(lines, Ascii("event:"), before.event, after.event)
            && Leaves(lines, Ascii("data:"), before.data, after.data)
    decreases |lines|
  {
    if lines == [] {
      NothingLeft(before, after);
    } else {
      var line, rest := lines[0], lines[1..];
      assert lines == [line] + rest;
      AllKnownCons(line, rest);
      LineAdds(before, line);
      LeavesCons(line, rest, Ascii("event:"), before.event, after.event);
      LeavesCons(line, rest, Ascii("data:"), before.data, after.data);
      var next := AddLine(before, line);
      hide Leaves, AllKnown, AddLine, Has, ValueIn, Skipped;
      if next.Some? {
        LinesLeave(next.value, rest, after);
      }
    }
  }

  lemma NothingLeft(before: Fields, after: Fields)
    ensures AllKnown([]) && AddLines(before, []) == Some(before)
    ensures Leaves([], Ascii("event:"), before.event, after.event) <==> after.event == before.event
    ensures Leaves([], Ascii("data:"), before.data, after.data) <==> after.data == before.data
  {
  }

  lemma LeavesCons(line: Bytes, rest: seq<Bytes>, field: Bytes, before: Option<Bytes>, after: Option<Bytes>)
    ensures Leaves([line] + rest, field, before, after) <==>
            if !Has(line, field) then Leaves(rest, field, before, after)
            else before.None? && Leaves(rest, field, Some(ValueIn(line, field)), after)
  {
    hide ValueIn, Has, NoneHas, FieldIs;
    NoneHasCons(line, rest, field);
    FieldIsCons(line, rest, field, after);
  }

  /** The lines of a frame are read as these fields exactly if each is known and no field comes twice. */
  lemma FieldsIff(lines: seq<Bytes>, f: Fields)
    ensures AddLines(NO_FIELDS, lines) == Some(f) <==>
            && AllKnown(lines)
            && FieldIs(lines, Ascii("event:"), f.event)
            && FieldIs(lines, Ascii("data:"), f.data)
  {
    LinesLeave(NO_FIELDS, lines, f);
  }

  // ----- what is refused, and what is nothing

  /** A frame of known lines that has these fields. */
  ghost predicate Reads(frame: Bytes, event: Option<Bytes>, data: Option<Bytes>) {
    && ValidUtf8(frame)
    && AllKnown(Lines(frame))
    && FieldIs(Lines(frame), Ascii("event:"), event)
    && FieldIs(Lines(frame), Ascii("data:"), data)
  }

  lemma ReadsAs(codec: Codec, frame: Bytes, event: Option<Bytes>, data: Option<Bytes>)
    requires Reads(frame, event, data)
    ensures EventOf(codec, frame) == Interpret(codec, Fields(event, data))
  {
    hide Interpret, AddLines, Lines, ValidUtf8, AllKnown, FieldIs;
    FieldsIff(Lines(frame), Fields(event, data));
  }

  lemma NotTextIsRefused(codec: Codec, frame: Bytes)
    requires !ValidUtf8(frame)
    ensures EventOf(codec, frame) == None
  {
  }

  lemma UnknownLineIsRefused(codec: Codec, frame: Bytes, i: nat)
    requires i < |Lines(frame)| && !KnownLine(Lines(frame)[i])
    ensures EventOf(codec, frame) == None
  {
    hide Interpret, AddLines, Lines, ValidUtf8, FieldIs, KnownLine;
    var fields := AddLines(NO_FIELDS, Lines(frame));
    if fields.Some? {
      FieldsIff(Lines(frame), fields.value);
    }
  }

  /** A second `event:` or `data:` line is refused. */
  lemma RepeatedFieldIsRefused(codec: Codec, frame: Bytes, field: Bytes, i: nat, j: nat)
    requires field == Ascii("event:") || field == Ascii("data:")
    requires i < j < |Lines(frame)| && Has(Lines(frame)[i], field) && Has(Lines(frame)[j], field)
    ensures EventOf(codec, frame) == None
  {
    hide Interpret, AddLines, Lines, ValidUtf8, AllKnown, ValueIn, Ascii;
    var fields := AddLines(NO_FIELDS, Lines(frame));
    if fields.Some? {
      FieldsIff(Lines(frame), fields.value);
    }
  }

  /** Blank lines and comments alone are no event. */
  lemma OnlySkippedIsEmpty(codec: Codec, frame: Bytes)
    requires ValidUtf8(frame) && forall i :: 0 <= i < |Lines(frame)| ==> Skipped(Lines(frame)[i])
    ensures EventOf(codec, frame) == Some(Empty)
  {
    hide AddLines, Lines, ValidUtf8, AddLine;
    var lines := Lines(frame);
    forall i | 0 <= i < |lines|
      ensures KnownLine(lines[i]) && !Has(lines[i], Ascii("event:")) && !Has(lines[i], Ascii("data:"))
    {
      LineAdds(NO_FIELDS, lines[i]);
    }
    hide Skipped, Has;
    ReadsAs(codec, frame, None, None);
  }

  /** Data without an event is refused. */
  lemma DataAloneIsRefused(codec: Codec, frame: Bytes, data: Bytes)
    requires Reads(frame, None, Some(data))
    ensures EventOf(codec, frame) == None
  {
    hide Reads;
    ReadsAs(codec, frame, None, Some(data));
  }

  /** An event without data, or with empty data, is refused, except a ping. */
  lemma EventAlone(codec: Codec, frame: Bytes, name: Bytes, data: Option<Bytes>)
    requires Reads(frame, Some(name), data) && (data.None? || data.value == [])
    ensures EventOf(codec, frame) == if name == Ascii("ping") then Some(Ping) else None
  {
    hide Reads, Ascii;
    ReadsAs(codec, frame, Some(name), data);
  }

  // ----- which event a name stands for

  /** The value is an object whose `type` is this text. */
  predicate HasType(v: Value, name: Bytes) {
    v.Object? && Ascii("type") in v.fields && v.fields[Ascii("type")] == String(name)
  }

  predicate InnerName(name: Bytes) {
    name == Ascii("content_block_start") || name == Ascii("content_block_delta")
    || name == Ascii("content_block_stop") || name == Ascii("message_delta")
  }

  predicate KnownName(name: Bytes) {
    name == Ascii("message_start") || name == Ascii("message_stop") || name == Ascii("error") || name == Ascii("ping")
    || InnerName(name)
  }

  /** The known names are pairwise different where it matters. */
  lemma NamesDiffer()
    ensures |Ascii("ping")| == 4 && |Ascii("error")| == 5 && |Ascii("message_stop")| == 12
    ensures |Ascii("message_start")| == 13 && |Ascii("message_delta")| == 13
    ensures |Ascii("content_block_start")| == 19 && |Ascii("content_block_delta")| == 19
    ensures |Ascii("content_block_stop")| == 18
    ensures Ascii("message_start") != Ascii("message_delta")
  {
    assert Ascii("message_start")[8] == 's' as int && Ascii("message_delta")[8] == 'd' as int;
  }

  /** Event and data together: refused unless the data is JSON of the event's own type, and then what the name says. */
  lemma EventTable(codec: Codec, frame: Bytes, name: Bytes, data: Bytes)
    requires Reads(frame, Some(name), Some(data)) && data != []
    ensures var parsed := codec.parse(data);
            var event := EventOf(codec, frame);
            && (parsed.None? || !HasType(parsed.value, name) || name == [] ==> event == None)
            && (parsed.Some? && HasType(parsed.value, name) && name != [] ==>
                  && (name == Ascii("message_start") ==> event == Some(MessageStart(parsed.value)))
                  && (name == Ascii("message_stop") ==> event == Some(MessageStop))
                  && (name == Ascii("error") ==> event == Some(Error))
                  && (name == Ascii("ping") ==> event == Some(Ping))
                  && (InnerName(name) ==> event == Some(Other))
                  && (!KnownName(name) ==> event == Some(Unknown)))
  {
    ReadsAs(codec, frame, Some(name), Some(data));
    NamesAreText();
    NamesDiffer();
    hide Reads, Ascii;
  }

  /** An event written in the usual way has its name and its JSON text as fields. */
  lemma WrittenReads(codec: Codec, name: Bytes, value: Value)
    requires Lawful(codec) && EventName(name)
    ensures Reads(EventBody(codec, name, value), Some(name), Some(codec.encode(value)))
  {
    hide Lines, ValidUtf8, WhitespaceWidth, EventBody, FieldIs, AllKnown, AddLines;
    EventFields(codec, name, value);
    EventIsUtf8(codec, name, value);
    FieldsIff(Lines(EventBody(codec, name, value)), Fields(Some(name), Some(codec.encode(value))));
  }

  /** What a written event is, for every name and value. */
  lemma WrittenEventIs(codec: Codec, name: Bytes, value: Value)
    requires Lawful(codec) && EventName(name)
    ensures var event := EventOf(codec, EventBody(codec, name, value));
            && (!HasType(value, name) ==> event == None)
            && (HasType(value, name) ==>
                  && (name == Ascii("message_start") ==> event == Some(MessageStart(value)))
                  && (name == Ascii("message_stop") ==> event == Some(MessageStop))
                  && (name == Ascii("error") ==> event == Some(Error))
                  && (name == Ascii("ping") ==> event == Some(Ping))
                  && (InnerName(name) ==> event == Some(Other))
                  && (!KnownName(name) ==> event == Some(Unknown)))
  {
    hide Reads, Ascii, EventBody, EventOf, WhitespaceWidth, ValidUtf8;
    WrittenReads(codec, name, value);
    EventTable(codec, EventBody(codec, name, value), name, codec.encode(value));
    assert codec.encode(value) != [] && codec.parse(codec.encode(value)) == Some(value);
  }
}
