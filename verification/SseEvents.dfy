/** How one SSE frame is read as a Bedrock Mantle event, and how its identity is rewritten. */
module SseEvents {
  import opened Common
  import opened Json
  import opened SseFraming

  const SPACE: byte := 0x20
  const COLON: byte := 0x3A

  // these make up the rewritten frame, where each octet matters to the framing
  const EVENT_FIELD: Bytes := [0x65, 0x76, 0x65, 0x6E, 0x74, 0x3A]   // event:
  const DATA_FIELD: Bytes := [0x64, 0x61, 0x74, 0x61, 0x3A]          // data:
  const MESSAGE_START: Bytes :=                                      // message_start
    [0x6D, 0x65, 0x73, 0x73, 0x61, 0x67, 0x65, 0x5F, 0x73, 0x74, 0x61, 0x72, 0x74]

  const TYPE := Ascii("type")
  const MESSAGE := Ascii("message")
  const PING := Ascii("ping")
  const ERROR := Ascii("error")
  const MESSAGE_STOP := Ascii("message_stop")
  const MESSAGE_DELTA := Ascii("message_delta")
  const CONTENT_BLOCK_START := Ascii("content_block_start")
  const CONTENT_BLOCK_DELTA := Ascii("content_block_delta")
  const CONTENT_BLOCK_STOP := Ascii("content_block_stop")

  datatype StreamEvent =
    | Empty
    | Ping
    | MessageStart(value: Value)
    | MessageStop
    | Error
    | Other
    | Unknown

  datatype Reject = Upstream | UpstreamTransport | ModelIdentityMismatch

  predicate Continuation(b: Bytes, i: int) {
    0 <= i < |b| && 0x80 <= b[i] <= 0xBF
  }

  /** Well-formed UTF-8, by the byte ranges of table 3-7 of the Unicode Standard. */
  predicate ValidUtf8(b: Bytes)
    decreases |b|
  {
    if b == [] then true
    else if b[0] <= 0x7F then ValidUtf8(b[1..])
    else if 0xC2 <= b[0] <= 0xDF then Continuation(b, 1) && ValidUtf8(b[2..])
    else if 0xE0 <= b[0] <= 0xEF then
      && Continuation(b, 1) && Continuation(b, 2)
      && (b[0] == 0xE0 ==> 0xA0 <= b[1])
      && (b[0] == 0xED ==> b[1] <= 0x9F)
      && ValidUtf8(b[3..])
    else if 0xF0 <= b[0] <= 0xF4 then
      && Continuation(b, 1) && Continuation(b, 2) && Continuation(b, 3)
      && (b[0] == 0xF0 ==> 0x90 <= b[1])
      && (b[0] == 0xF4 ==> b[1] <= 0x8F)
      && ValidUtf8(b[4..])
    else false
  }

  /** Length in octets of a leading Unicode White_Space character, 0 when there is none. */
  function WhitespaceWidth(b: Bytes): (n: nat)
    ensures n <= |b|
  {
    if |b| >= 1 && (0x09 <= b[0] <= 0x0D || b[0] == SPACE) then 1
    else if |b| >= 2 && b[0] == 0xC2 && (b[1] == 0x85 || b[1] == 0xA0) then 2
    else if |b| >= 3 && b[0] == 0xE1 && b[1] == 0x9A && b[2] == 0x80 then 3
    else if |b| >= 3 && b[0] == 0xE2 && b[1] == 0x80
            && (0x80 <= b[2] <= 0x8A || b[2] == 0xA8 || b[2] == 0xA9 || b[2] == 0xAF) then 3
    else if |b| >= 3 && b[0] == 0xE2 && b[1] == 0x81 && b[2] == 0x9F then 3
    else if |b| >= 3 && b[0] == 0xE3 && b[1] == 0x80 && b[2] == 0x80 then 3
    else 0
  }

  function TrimStart(b: Bytes): Bytes
    decreases |b|
  {
    var n := WhitespaceWidth(b);
    if n == 0 then b else TrimStart(b[n..])
  }

  function StripCr(line: Bytes): Bytes {
    if |line| > 0 && line[|line| - 1] == CR then line[..|line| - 1] else line
  }

  function IndexOfLf(b: Bytes): (n: nat)
    ensures n <= |b|
    ensures n < |b| ==> b[n] == LF
    ensures forall k :: 0 <= k < n ==> b[k] != LF
    decreases |b|
  {
    if b == [] || b[0] == LF then 0 else 1 + IndexOfLf(b[1..])
  }

  /** `str::lines`: LF-terminated lines, less one CR before the LF; a final unterminated line as is. */
  function Lines(b: Bytes): seq<Bytes>
    decreases |b|
  {
    var n := IndexOfLf(b);
    if b == [] then []
    else if n == |b| then [b]
    else [StripCr(b[..n])] + Lines(b[n + 1..])
  }

  function StripPrefix(line: Bytes, prefix: Bytes): Option<Bytes> {
    if prefix <= line then Some(line[|prefix|..]) else None
  }

  /** The `event` and `data` fields gathered so far. */
  datatype Fields = Fields(event: Option<Bytes>, data: Option<Bytes>)

  const NO_FIELDS := Fields(None, None)

  /** One line: blank and comment lines are skipped, a repeated or unknown field is refused. */
  function AddLine(fields: Fields, raw: Bytes): Option<Fields> {
    var line := StripCr(raw);
    if line == [] || line[0] == COLON then Some(fields)
    else
      var event := StripPrefix(line, EVENT_FIELD);
      var data := StripPrefix(line, DATA_FIELD);
      if event.Some? then
        if fields.event.Some? then None else Some(fields.(event := Some(TrimStart(event.value))))
      else if data.Some? then
        if fields.data.Some? then None else Some(fields.(data := Some(TrimStart(data.value))))
      else None
  }

  function AddLines(fields: Fields, lines: seq<Bytes>): Option<Fields>
    decreases |lines|
  {
    if lines == [] then Some(fields)
    else
      var next := AddLine(fields, lines[0]);
      if next.None? then None else AddLines(next.value, lines[1..])
  }

  function TypeOf(codec: Codec, data: Bytes): Option<Bytes> {
    var value := codec.parse(data);
    if value.None? then None else AsText(Get(value.value, TYPE))
  }

  function Interpret(codec: Codec, fields: Fields): Option<StreamEvent> {
    if fields.event.None? then
      if fields.data.None? then Some(Empty) else None
    else if fields.event.value == PING then
      if fields.data.Some? && fields.data.value != [] && TypeOf(codec, fields.data.value) != Some(PING)
      then None else Some(Ping)
    else if fields.data.None? || fields.data.value == [] then None
    else
      var event := fields.event.value;
      var value := codec.parse(fields.data.value);
      if value.None? || event == [] || AsText(Get(value.value, TYPE)) != Some(event) then None
      else if event == MESSAGE_START then Some(MessageStart(value.value))
      else if event == MESSAGE_STOP then Some(MessageStop)
      else if event == ERROR then Some(Error)
      else if event == CONTENT_BLOCK_START || event == CONTENT_BLOCK_DELTA
              || event == CONTENT_BLOCK_STOP || event == MESSAGE_DELTA then Some(Other)
      else Some(Unknown)
  }

  /** The event a frame carries; None is the refusal of a malformed frame. */
  function EventOf(codec: Codec, frame: Bytes): Option<StreamEvent> {
    if !ValidUtf8(frame) then None
    else
      var fields := AddLines(NO_FIELDS, Lines(frame));
      if fields.None? then None else Interpret(codec, fields.value)
  }

  /** `parse_stream_event`, with its loop over the lines of the frame. */
  method ParseStreamEvent(codec: Codec, frame: Bytes) returns (r: Option<StreamEvent>)
    ensures r == EventOf(codec, frame)
  {
    if !ValidUtf8(frame) {
      return None;
    }
    var lines := Lines(frame);
    var event: Option<Bytes> := None;
    var data: Option<Bytes> := None;
    var i := 0;
    while i < |lines|
      invariant i <= |lines|
      invariant AddLines(NO_FIELDS, lines) == AddLines(Fields(event, data), lines[i..])
    {
      var line := StripCr(lines[i]);
      assert lines[i..][0] == lines[i] && lines[i..][1..] == lines[i + 1..];
      i := i + 1;
      if line == [] || line[0] == COLON {
        continue;
      }
      var value := StripPrefix(line, EVENT_FIELD);
      if value.Some? {
        if event.Some? {
          return None;
        }
        event := Some(TrimStart(value.value));
      } else {
        value := StripPrefix(line, DATA_FIELD);
        if value.None? || data.Some? {
          return None;
        }
        data := Some(TrimStart(value.value));
      }
    }
    assert lines[i..] == [];
    return Interpret(codec, Fields(event, data));
  }

  /** What the identity check needs of a frame that precedes the message body. */
  datatype Preamble = Passed | Rewritten(frame: Bytes)

  /** An event as one frame writes it: `event: `, its name, LF, `data: ` and the JSON text. */
  function EventBody(codec: Codec, name: Bytes, value: Value): Bytes {
    EVENT_FIELD + [SPACE] + name + [LF] + (DATA_FIELD + [SPACE] + codec.encode(value))
  }

  /** The rewritten identity event. */
  function CanonicalBody(codec: Codec, value: Value): Bytes {
    EventBody(codec, MESSAGE_START, value)
  }

  function CanonicalFrame(codec: Codec, value: Value): Bytes {
    CanonicalBody(codec, value) + [LF, LF]
  }

  /** The model named by a message_start value. */
  function ModelOf(value: Value): Option<Bytes> {
    var message := Get(value, MESSAGE);
    if message.None? then None else AsText(Get(message.value, MODEL))
  }

  function WithModel(value: Value, model: Bytes): Value
    requires ModelOf(value).Some?
  {
    var message := value.fields[MESSAGE];
    Object(value.fields[MESSAGE := Object(message.fields[MODEL := String(model)])])
  }

  /** `parse_sse_preamble_frame`. */
  function PreambleOf(codec: Codec, frame: Bytes, raw: Bytes, canonical: Bytes): Result<Preamble, Reject> {
    match EventOf(codec, frame)
    case None => Err(Upstream)
    case Some(MessageStart(value)) =>
      if ModelOf(value).None? then Err(Upstream)
      else if ModelOf(value) != Some(raw) then Err(ModelIdentityMismatch)
      else Ok(Rewritten(CanonicalFrame(codec, WithModel(value, canonical))))
    case Some(Empty) => Ok(Passed)
    case Some(Ping) => Ok(Passed)
    case Some(Unknown) => Ok(Passed)
    case Some(_) => Err(Upstream)
  }

  /**
   What is relied on of the JSON library: parsing undoes printing, and printed text is a
   non-empty, well-formed string that starts with no white space and holds no raw line break.
   */
  ghost predicate Lawful(codec: Codec) {
    forall v: Value {:trigger codec.encode(v)} ::
      && codec.parse(codec.encode(v)) == Some(v)
      && codec.encode(v) != []
      && ValidUtf8(codec.encode(v))
      && WhitespaceWidth(codec.encode(v)) == 0
      && forall i :: 0 <= i < |codec.encode(v)| ==> codec.encode(v)[i] != LF && codec.encode(v)[i] != CR
  }

  lemma AsciiByteUtf8(b: Bytes)
    requires b != [] && b[0] <= 0x7F && ValidUtf8(b[1..])
    ensures ValidUtf8(b)
  {
  }

  lemma {:induction false} AsciiPrefixUtf8(a: Bytes, b: Bytes)
    requires forall i :: 0 <= i < |a| ==> a[i] <= 0x7F
    requires ValidUtf8(b)
    ensures ValidUtf8(a + b)
  {
    if a == [] {
      assert a + b == b;
    } else {
      hide ValidUtf8;
      AsciiPrefixUtf8(a[1..], b);
      assert (a + b)[1..] == a[1..] + b;
      AsciiByteUtf8(a + b);
    }
  }

  lemma IndexOfLfIs(b: Bytes, n: nat)
    requires n <= |b|
    requires n < |b| ==> b[n] == LF
    requires forall k :: 0 <= k < n ==> b[k] != LF
    ensures IndexOfLf(b) == n
  {
  }

  predicate PlainText(b: Bytes) {
    forall i :: 0 <= i < |b| ==> b[i] <= 0x7F && b[i] != LF && b[i] != CR
  }

  /** A name that a frame can carry: one line of text that does not start with white space. */
  predicate EventName(name: Bytes) {
    name != [] && PlainText(name) && WhitespaceWidth(name) == 0
  }

  /** The two lines of an event. */
  lemma EventLines(codec: Codec, name: Bytes, value: Value)
    requires Lawful(codec) && EventName(name)
    ensures Lines(EventBody(codec, name, value)) ==
            [EVENT_FIELD + [SPACE] + name, DATA_FIELD + [SPACE] + codec.encode(value)]
  {
    FieldOctets();
    hide Ascii, WhitespaceWidth;
    var first := EVENT_FIELD + [SPACE] + name;
    var second := DATA_FIELD + [SPACE] + codec.encode(value);
    var body, n := EventBody(codec, name, value), 7 + |name|;
    assert body[..n] == first && body[n] == LF && body[n + 1..] == second;
    assert PlainText(first);
    IndexOfLfIs(body, n);
    IndexOfLfIs(second, |second|);
    assert StripCr(first) == first;
    assert Lines(second) == [second];
  }

  lemma EventFields(codec: Codec, name: Bytes, value: Value)
    requires Lawful(codec) && EventName(name)
    ensures AddLines(NO_FIELDS, Lines(EventBody(codec, name, value))) ==
            Some(Fields(Some(name), Some(codec.encode(value))))
  {
    var first := EVENT_FIELD + [SPACE] + name;
    var text := codec.encode(value);
    var second := DATA_FIELD + [SPACE] + text;
    EventLines(codec, name, value);
    AddEventLine(name);
    var one := Fields(Some(name), None);
    AddDataLine(one, text);
    hide AddLine;
    assert [first, second][1..] == [second];
    assert AddLines(one, [second]) == Some(one.(data := Some(text)));
  }

  lemma StripFieldName(name: Bytes, value: Bytes)
    ensures StripPrefix(name + value, name) == Some(value)
  {
    assert (name + value)[|name|..] == value;
  }

  lemma TrimOneSpace(text: Bytes)
    requires WhitespaceWidth(text) == 0
    ensures TrimStart([SPACE] + text) == text
  {
    assert ([SPACE] + text)[1..] == text;
  }

  /** What the framing relies on of the two field names and the event name. */
  lemma FieldOctets()
    ensures |EVENT_FIELD| == 6 && EVENT_FIELD[0] == 0x65 && PlainText(EVENT_FIELD)
    ensures |DATA_FIELD| == 5 && DATA_FIELD[0] == 0x64 && PlainText(DATA_FIELD)
    ensures |MESSAGE_START| == 13 && EventName(MESSAGE_START)
  {
  }

  lemma AddEventLine(name: Bytes)
    requires EventName(name)
    ensures AddLine(NO_FIELDS, EVENT_FIELD + [SPACE] + name) == Some(Fields(Some(name), None))
  {
    FieldOctets();
    hide Ascii;
    var line := EVENT_FIELD + [SPACE] + name;
    assert line == EVENT_FIELD + ([SPACE] + name);
    StripFieldName(EVENT_FIELD, [SPACE] + name);
    TrimOneSpace(name);
    hide TrimStart, WhitespaceWidth, StripPrefix;
    assert line[|line| - 1] == name[|name| - 1];
    assert StripCr(line) == line && line[0] == EVENT_FIELD[0];
  }

  lemma AddDataLine(fields: Fields, text: Bytes)
    requires fields.data.None?
    requires text != [] && WhitespaceWidth(text) == 0 && text[|text| - 1] != CR
    ensures AddLine(fields, DATA_FIELD + [SPACE] + text) == Some(fields.(data := Some(text)))
  {
    FieldOctets();
    hide Ascii;
    var line := DATA_FIELD + [SPACE] + text;
    assert line == DATA_FIELD + ([SPACE] + text);
    StripFieldName(DATA_FIELD, [SPACE] + text);
    TrimOneSpace(text);
    hide TrimStart, WhitespaceWidth;
    assert StripCr(line) == line && line[0] == DATA_FIELD[0];
    assert StripPrefix(line, EVENT_FIELD).None?;
  }

  lemma EventIsUtf8(codec: Codec, name: Bytes, value: Value)
    requires Lawful(codec) && EventName(name)
    ensures ValidUtf8(EventBody(codec, name, value))
  {
    FieldOctets();
    hide Ascii, WhitespaceWidth;
    var head := EVENT_FIELD + [SPACE] + name + [LF] + (DATA_FIELD + [SPACE]);
    assert ValidUtf8(codec.encode(value));
    AsciiPrefixUtf8(head, codec.encode(value));
    assert EventBody(codec, name, value) == head + codec.encode(value);
  }

  /** The rewritten frame reads back as a message_start carrying exactly the rewritten value. */
  lemma CanonicalReadsBack(codec: Codec, value: Value)
    requires Lawful(codec)
    requires AsText(Get(value, TYPE)) == Some(MESSAGE_START)
    ensures EventOf(codec, CanonicalBody(codec, value)) == Some(MessageStart(value))
  {
    FieldOctets();
    hide WhitespaceWidth, ValidUtf8, Lines, AddLines, EventBody;
    EventFields(codec, MESSAGE_START, value);
    EventIsUtf8(codec, MESSAGE_START, value);
    assert MESSAGE_START != PING;
  }

  /** The value is an object whose `message` is an object whose `model` is this text. */
  predicate HasModel(v: Value, model: Bytes) {
    && v.Object? && Ascii("message") in v.fields
    && var message := v.fields[Ascii("message")];
       message.Object? && Ascii("model") in message.fields && message.fields[Ascii("model")] == String(model)
  }

  lemma ModelMeans(v: Value, model: Bytes)
    ensures ModelOf(v) == Some(model) <==> HasModel(v, model)
  {
  }

  /** w is v with the message's model replaced by this one: no other key and no other value differs. */
  ghost predicate OnlyModelReplaced(v: Value, w: Value, model: Bytes) {
    && v.Object? && w.Object? && w.fields.Keys == v.fields.Keys && Ascii("message") in v.fields
    && (forall k :: k in v.fields && k != Ascii("message") ==> w.fields[k] == v.fields[k])
    && var before, after := v.fields[Ascii("message")], w.fields[Ascii("message")];
       && before.Object? && after.Object? && after.fields.Keys == before.fields.Keys && Ascii("model") in before.fields
       && (forall k :: k in before.fields && k != Ascii("model") ==> after.fields[k] == before.fields[k])
       && after.fields[Ascii("model")] == String(model)
  }

  /** The rewrite changes the model and nothing else, at either level. */
  lemma WithModelReplacesOnlyModel(value: Value, model: Bytes)
    requires ModelOf(value).Some?
    ensures OnlyModelReplaced(value, WithModel(value, model), model)
    ensures Get(WithModel(value, model), TYPE) == Get(value, TYPE)
    ensures ModelOf(WithModel(value, model)) == Some(model)
  {
    assert MESSAGE != TYPE by { assert |MESSAGE| != |TYPE|; }
  }

  lemma OneFrameWhole(b: Bytes)
    requires FindFrame(b).Some? && FindFrame(b).value.sepEnd == |b| && Frames([]) == [] && Rest([]) == []
    ensures var c := FindFrame(b).value;
            Frames(b) == [Frame(b[..c.frameEnd], b[c.frameEnd..c.sepEnd])] && Rest(b) == []
  {
    assert b[|b|..] == [];
  }

  /** An event is one frame: it splits into its body and LF LF, with nothing over. */
  lemma EventIsOneFrame(codec: Codec, name: Bytes, value: Value)
    requires Lawful(codec) && EventName(name)
    ensures var body := EventBody(codec, name, value);
            Frames(body + [LF, LF]) == [Frame(body, [LF, LF])] && Rest(body + [LF, LF]) == []
  {
    var body := EventBody(codec, name, value);
    var b, n, lf := body + [LF, LF], |body|, 7 + |name|;
    FieldOctets();
    hide Ascii, Frames, Rest, FindFrame, WhitespaceWidth;
    var head := EVENT_FIELD + [SPACE] + name;
    assert PlainText(head);
    assert body == head + [LF] + DATA_FIELD + [SPACE] + codec.encode(value);
    assert forall k :: 0 <= k < n ==> body[k] != CR && (body[k] == LF ==> k == lf);
    assert body[lf + 1] == DATA_FIELD[0];
    FindIs(b, n);
    assert b[..n] == body && b[n..n + 2] == [LF, LF] && b[n + 2..] == [];
    NoFrames([]);
    OneFrameWhole(b);
  }

  /** In particular the rewritten identity frame. */
  lemma CanonicalIsOneFrame(codec: Codec, value: Value)
    requires Lawful(codec)
    ensures Frames(CanonicalFrame(codec, value)) == [Frame(CanonicalBody(codec, value), [LF, LF])]
    ensures Rest(CanonicalFrame(codec, value)) == []
  {
    hide EventBody, Frames, Rest;
    FieldOctets();
    EventIsOneFrame(codec, MESSAGE_START, value);
  }

  /** Every frame whose event is a message_start declares that type in its data. */
  lemma MessageStartDeclaresType(codec: Codec, frame: Bytes)
    requires EventOf(codec, frame).Some? && EventOf(codec, frame).value.MessageStart?
    ensures AsText(Get(EventOf(codec, frame).value.value, TYPE)) == Some(MESSAGE_START)
  {
  }
}
