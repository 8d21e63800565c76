/** The control-character sanitiser applied to btcli's JSON output before it is parsed. */
module JsonSanitizer {
  import opened Common

  const LOWER_U: byte := 0x75

  /** Where the scanner is: between strings, in one, or right after a backslash in one. */
  datatype Mode = Outside | Inside | Escaped

  function Next(m: Mode, b: byte): Mode {
    match m
    case Outside => if b == QUOTE then Inside else Outside
    case Inside => if b == BACKSLASH then Escaped else if b == QUOTE then Outside else Inside
    case Escaped => Inside
  }

  /** A lower-case hexadecimal digit. */
  function HexDigit(n: nat): byte
    requires n < 16
  {
    if n < 10 then ZERO + n else 0x61 + (n - 10)
  }

  /** A `\u00XX` escape. */
  function UnicodeEscape(b: byte): Bytes {
    [BACKSLASH, LOWER_U, ZERO, ZERO, HexDigit(b / 16), HexDigit(b % 16)]
  }

  function Emit(m: Mode, b: byte): Bytes {
    if m == Inside && b < 0x20 then UnicodeEscape(b) else [b]
  }

  function Sanitized(m: Mode, json: Bytes): Bytes
    decreases |json|
  {
    if json == [] then [] else Emit(m, json[0]) + Sanitized(Next(m, json[0]), json[1..])
  }

  /** `sanitize_control_chars`, with its two flags. */
  method SanitizeControlChars(json: Bytes) returns (out: Bytes)
    ensures out == Sanitized(Outside, json)
  {
    out := [];
    var inString, escaped := false, false;
    var i := 0;
    while i < |json|
      invariant i <= |json|
      invariant escaped ==> inString
      invariant Sanitized(Outside, json) == out + Sanitized(ModeOf(inString, escaped), json[i..])
    {
      hide Sanitized, UnicodeEscape;
      var b := json[i];
      SanitizedStep(ModeOf(inString, escaped), json, i, out);
      if inString {
        if escaped {
          out := out + [b];
          escaped := false;
        } else if b == BACKSLASH {
          out := out + [b];
          escaped := true;
        } else if b == QUOTE {
          out := out + [b];
          inString := false;
        } else if b < 0x20 {
          out := out + UnicodeEscape(b);
        } else {
          out := out + [b];
        }
      } else {
        if b == QUOTE {
          inString := true;
        }
        out := out + [b];
      }
      i := i + 1;
    }
    assert json[i..] == [] && out + [] == out;
  }

  lemma SanitizedStep(m: Mode, json: Bytes, i: nat, out: Bytes)
    requires i < |json|
    ensures out + Sanitized(m, json[i..]) == (out + Emit(m, json[i])) + Sanitized(Next(m, json[i]), json[i + 1..])
  {
    hide UnicodeEscape;
    assert json[i..][0] == json[i] && json[i..][1..] == json[i + 1..];
  }

  function ModeOf(inString: bool, escaped: bool): Mode {
    if !inString then Outside else if escaped then Escaped else Inside
  }

  /** No control octet stands unescaped inside a string (one right after a backslash excepted). */
  ghost predicate Clean(m: Mode, json: Bytes)
    decreases |json|
  {
    json == [] || ((m == Inside ==> json[0] >= 0x20) && Clean(Next(m, json[0]), json[1..]))
  }

  lemma {:induction false} CleanAppend(m: Mode, a: Bytes, b: Bytes, n: Mode)
    requires Clean(m, a) && ModeAfter(m, a) == n && Clean(n, b)
    ensures Clean(m, a + b)
    decreases |a|
  {
    if a == [] {
      assert a + b == b;
    } else {
      assert (a + b)[1..] == a[1..] + b;
      CleanAppend(Next(m, a[0]), a[1..], b, n);
    }
  }

  function ModeAfter(m: Mode, b: Bytes): Mode
    decreases |b|
  {
    if b == [] then m else ModeAfter(Next(m, b[0]), b[1..])
  }

  /** What one octet turns into is clean and leaves the scanner where that octet would have. */
  lemma EmitIsClean(m: Mode, b: byte)
    ensures Clean(m, Emit(m, b)) && ModeAfter(m, Emit(m, b)) == Next(m, b)
  {
    if m == Inside && b < 0x20 {
      var e := UnicodeEscape(b);
      var x, y := HexDigit(b / 16), HexDigit(b % 16);
      assert e == [BACKSLASH] + ([LOWER_U] + ([ZERO] + ([ZERO] + ([x] + ([y] + [])))));
      ScanOne(Inside, y, []);
      ScanOne(Inside, x, [y] + []);
      ScanOne(Inside, ZERO, [x] + ([y] + []));
      ScanOne(Inside, ZERO, [ZERO] + ([x] + ([y] + [])));
      ScanOne(Escaped, LOWER_U, [ZERO] + ([ZERO] + ([x] + ([y] + []))));
      ScanOne(Inside, BACKSLASH, [LOWER_U] + ([ZERO] + ([ZERO] + ([x] + ([y] + [])))));
    } else {
      ScanOne(m, b, []);
      assert [b] + [] == [b];
    }
  }

  lemma ScanOne(m: Mode, b: byte, rest: Bytes)
    ensures ModeAfter(m, [b] + rest) == ModeAfter(Next(m, b), rest)
    ensures Clean(m, [b] + rest) <==> (m == Inside ==> b >= 0x20) && Clean(Next(m, b), rest)
    ensures ModeAfter(Next(m, b), []) == Next(m, b)
  {
    assert ([b] + rest)[1..] == rest;
  }

  /** The output is clean for every input, valid JSON or not. */
  lemma {:induction false} SanitizedIsClean(m: Mode, json: Bytes)
    ensures Clean(m, Sanitized(m, json))
    decreases |json|
  {
    if json != [] {
      var n := Next(m, json[0]);
      SanitizedIsClean(n, json[1..]);
      EmitIsClean(m, json[0]);
      CleanAppend(m, Emit(m, json[0]), Sanitized(n, json[1..]), n);
    }
  }

  /** Clean text is left alone, octet for octet. */
  lemma {:induction false} CleanIsUnchanged(m: Mode, json: Bytes)
    requires Clean(m, json)
    ensures Sanitized(m, json) == json
    decreases |json|
  {
    if json != [] {
      CleanIsUnchanged(Next(m, json[0]), json[1..]);
      assert json == [json[0]] + json[1..];
    }
  }

  /** Text is changed exactly when it is not clean. */
  lemma UnchangedIffClean(json: Bytes)
    ensures Sanitized(Outside, json) == json <==> Clean(Outside, json)
  {
    SanitizedIsClean(Outside, json);
    if Clean(Outside, json) {
      CleanIsUnchanged(Outside, json);
    }
  }

  /** The octets that stand outside strings, quotes that open one included. */
  function OutsideOctets(m: Mode, json: Bytes): Bytes
    decreases |json|
  {
    if json == [] then []
    else (if m == Outside then [json[0]] else []) + OutsideOctets(Next(m, json[0]), json[1..])
  }

  lemma {:induction false} OutsideAppend(m: Mode, a: Bytes, b: Bytes)
    ensures OutsideOctets(m, a + b) == OutsideOctets(m, a) + OutsideOctets(ModeAfter(m, a), b)
    decreases |a|
  {
    if a == [] {
      assert a + b == b;
    } else {
      assert (a + b)[0] == a[0] && (a + b)[1..] == a[1..] + b;
      OutsideAppend(Next(m, a[0]), a[1..], b);
      var first := if m == Outside then [a[0]] else [];
      Reassociate(first, OutsideOctets(Next(m, a[0]), a[1..]), OutsideOctets(ModeAfter(m, a), b));
    }
  }

  lemma OutsideOfEmit(m: Mode, b: byte)
    ensures OutsideOctets(m, Emit(m, b)) == if m == Outside then [b] else []
  {
    if m == Inside && b < 0x20 {
      var e := UnicodeEscape(b);
      assert e[0] == BACKSLASH && e[1] == LOWER_U && e[1..][1..] == e[2..];
      assert OutsideOctets(Inside, e[2..]) == [] by {
        NoneOutside(e[2..]);
      }
      assert OutsideOctets(Escaped, e[1..]) == [];
    } else {
      assert [b][1..] == [];
    }
  }

  lemma {:induction false} NoneOutside(b: Bytes)
    requires forall i :: 0 <= i < |b| ==> b[i] != QUOTE && b[i] != BACKSLASH
    ensures OutsideOctets(Inside, b) == []
    decreases |b|
  {
    if b != [] {
      NoneOutside(b[1..]);
    }
  }

  /** Nothing outside strings is changed, moved, added or dropped. */
  lemma {:induction false} OutsideIsKept(m: Mode, json: Bytes)
    ensures OutsideOctets(m, Sanitized(m, json)) == OutsideOctets(m, json)
    decreases |json|
  {
    if json != [] {
      var n := Next(m, json[0]);
      OutsideIsKept(n, json[1..]);
      EmitIsClean(m, json[0]);
      OutsideOfEmit(m, json[0]);
      OutsideAppend(m, Emit(m, json[0]), Sanitized(n, json[1..]));
    }
  }

  lemma Idempotent(json: Bytes)
    ensures Sanitized(Outside, Sanitized(Outside, json)) == Sanitized(Outside, json)
  {
    SanitizedIsClean(Outside, json);
    CleanIsUnchanged(Outside, Sanitized(Outside, json));
  }

  /** The escape of a control octet: `\\u00` and its two lower-case hexadecimal digits. */
  lemma EscapeIs(b: byte)
    requires b < 0x20
    ensures UnicodeEscape(b) == Ascii("\\u00") + [Ascii("01")[b / 16], Ascii("0123456789abcdef")[b % 16]]
  {
    var digits := Ascii("0123456789abcdef");
    assert forall i :: 0 <= i < 16 ==> digits[i] == HexDigit(i);
    assert Ascii("01")[0] == HexDigit(0) && Ascii("01")[1] == HexDigit(1);
    assert Ascii("\\u00") == [BACKSLASH, LOWER_U, ZERO, ZERO];
  }

  // ----- what the text means

  /** A reading of JSON text: octets between strings, quotes, and string content by code unit. */
  datatype Token = Plain(octet: byte) | Open | Close | Unit(code: nat) | Escape(octet: byte)

  function HexValue(b: byte): Option<nat> {
    if ZERO <= b <= 0x39 then Some(b - ZERO)
    else if 0x61 <= b <= 0x66 then Some(b - 0x61 + 10)
    else if 0x41 <= b <= 0x46 then Some(b - 0x41 + 10)
    else None
  }

  predicate Hex4(b: Bytes) {
    |b| >= 4 && HexValue(b[0]).Some? && HexValue(b[1]).Some? && HexValue(b[2]).Some? && HexValue(b[3]).Some?
  }

  function Code4(b: Bytes): nat
    requires Hex4(b)
  {
    ((HexValue(b[0]).value * 16 + HexValue(b[1]).value) * 16 + HexValue(b[2]).value) * 16 + HexValue(b[3]).value
  }

  /** A lenient reader: a raw control octet in a string stands for itself. */
  function Reading(m: Mode, json: Bytes): seq<Token>
    decreases |json|
  {
    if json == [] then []
    else
      var b, rest := json[0], json[1..];
      match m
      case Outside => [if b == QUOTE then Open else Plain(b)] + Reading(Next(m, b), rest)
      case Inside =>
        if b == BACKSLASH && rest != [] && rest[0] == LOWER_U && Hex4(rest[1..]) then
          [Unit(Code4(rest[1..]))] + Reading(Inside, rest[5..])
        else if b == BACKSLASH then Reading(Escaped, rest)
        else if b == QUOTE then [Close] + Reading(Outside, rest)
        else [Unit(b)] + Reading(Inside, rest)
      case Escaped => [Escape(b)] + Reading(Inside, rest)
  }

  /** Sanitising does not move hexadecimal digits: four of them stand in front after iff before. */
  lemma HexSurvives(json: Bytes)
    ensures Hex4(Sanitized(Inside, json)) <==> Hex4(json)
    ensures Hex4(json) ==> Sanitized(Inside, json) == json[..4] + Sanitized(Inside, json[4..])
  {
    HexRun(json, 4);
    assert Hex4(json) <==> |json| >= 4 && HexFront(json, 4);
    assert Hex4(Sanitized(Inside, json)) <==> |Sanitized(Inside, json)| >= 4 && HexFront(Sanitized(Inside, json), 4);
  }

  predicate HexFront(b: Bytes, n: nat) {
    |b| >= n && forall i :: 0 <= i < n ==> HexValue(b[i]).Some?
  }

  lemma {:induction false} HexRun(json: Bytes, n: nat)
    ensures HexFront(Sanitized(Inside, json), n) <==> HexFront(json, n)
    ensures HexFront(json, n) ==> Sanitized(Inside, json) == json[..n] + Sanitized(Inside, json[n..])
    decreases n
  {
    hide HexValue, UnicodeEscape, HexFront, Sanitized;
    if n == 0 {
      assert json[..0] == [] && json[0..] == json;
      assert [] + Sanitized(Inside, json) == Sanitized(Inside, json);
      NoHex(json, Sanitized(Inside, json));
    } else if json != [] && HexValue(json[0]).Some? {
      var rest := json[1..];
      HexRun(rest, n - 1);
      HexDigitKept(json);
      var out := Sanitized(Inside, json);
      HexFrontCons(json, n);
      HexFrontCons(out, n);
      if HexFront(json, n) {
        HexFrontLength(json, n);
        assert json[..n] == [json[0]] + rest[..n - 1] && json[n..] == rest[n - 1..];
        assert [json[0]] + (rest[..n - 1] + Sanitized(Inside, rest[n - 1..])) ==
               [json[0]] + rest[..n - 1] + Sanitized(Inside, rest[n - 1..]);
      }
    } else {
      NotHexInFront(json, n);
    }
  }

  lemma NoHex(a: Bytes, b: Bytes)
    ensures HexFront(a, 0) && HexFront(b, 0)
  {
  }

  lemma HexFrontLength(b: Bytes, n: nat)
    requires HexFront(b, n)
    ensures |b| >= n
  {
  }

  lemma HexDigitKept(json: Bytes)
    requires json != [] && HexValue(json[0]).Some?
    ensures Sanitized(Inside, json) == [json[0]] + Sanitized(Inside, json[1..])
    ensures Sanitized(Inside, json)[1..] == Sanitized(Inside, json[1..])
  {
    hide UnicodeEscape;
    assert ([json[0]] + Sanitized(Inside, json[1..]))[1..] == Sanitized(Inside, json[1..]);
  }

  lemma NotHexInFront(json: Bytes, n: nat)
    requires n > 0 && (json == [] || HexValue(json[0]).None?)
    ensures !HexFront(json, n) && !HexFront(Sanitized(Inside, json), n)
  {
    if json != [] {
      var out := Sanitized(Inside, json);
      assert out[0] == json[0] || out[0] == BACKSLASH;
    }
  }

  lemma HexFrontCons(b: Bytes, n: nat)
    requires b != [] && n > 0 && HexValue(b[0]).Some?
    ensures HexFront(b, n) <==> HexFront(b[1..], n - 1)
  {
    if HexFront(b[1..], n - 1) {
      forall i | 0 <= i < n
        ensures HexValue(b[i]).Some?
      {
        if i > 0 {
          assert b[i] == b[1..][i - 1];
        }
      }
    }
  }

  /** The escape written for a control octet reads back as that octet. */
  lemma EscapeReadsBack(b: byte, rest: Bytes)
    requires b < 0x20
    ensures Reading(Inside, UnicodeEscape(b) + rest) == [Unit(b)] + Reading(Inside, rest)
  {
    var text := UnicodeEscape(b) + rest;
    var x, y := HexDigit(b / 16), HexDigit(b % 16);
    assert text[1..] == [LOWER_U, ZERO, ZERO, x, y] + rest;
    assert text[1..][1..] == [ZERO, ZERO, x, y] + rest;
    assert HexValue(x) == Some(b / 16) && HexValue(y) == Some(b % 16) && HexValue(ZERO) == Some(0);
    assert Code4(text[1..][1..]) == b;
    assert text[1..][5..] == rest;
  }

  /** Sanitising keeps the meaning: the sanitised text reads as the lenient reading of the original. */
  lemma {:induction false} MeaningKept(m: Mode, json: Bytes)
    ensures Reading(m, Sanitized(m, json)) == Reading(m, json)
    decreases |json|
  {
    if json != [] {
      var b, rest := json[0], json[1..];
      var out := Sanitized(m, json);
      if m == Inside && b < 0x20 {
        MeaningKept(Inside, rest);
        EscapeReadsBack(b, Sanitized(Inside, rest));
      } else {
        assert out[0] == b && out[1..] == Sanitized(Next(m, b), rest);
        if m == Inside && b == BACKSLASH && rest != [] {
          MeaningAfterBackslash(rest);
        } else {
          MeaningKept(Next(m, b), rest);
        }
      }
    }
  }

  lemma {:induction false} MeaningAfterBackslash(rest: Bytes)
    requires rest != []
    ensures Reading(Inside, [BACKSLASH] + Sanitized(Escaped, rest)) == Reading(Inside, [BACKSLASH] + rest)
    decreases |rest|
  {
    var tail := rest[1..];
    var out := Sanitized(Escaped, rest);
    assert out == [rest[0]] + Sanitized(Inside, tail);
    HexSurvives(tail);
    BackslashReading(rest);
    BackslashReading(out);
    assert out[1..] == Sanitized(Inside, tail);
    if rest[0] == LOWER_U && Hex4(tail) {
      MeaningKept(Inside, tail[4..]);
      assert out[1..][4..] == Sanitized(Inside, tail[4..]);
      assert out[1..][..4] == tail[..4];
      assert Code4(out[1..]) == Code4(tail);
    } else {
      MeaningKept(Inside, tail);
    }
  }

  lemma BackslashReading(rest: Bytes)
    requires rest != []
    ensures Reading(Inside, [BACKSLASH] + rest) ==
            if rest[0] == LOWER_U && Hex4(rest[1..]) then [Unit(Code4(rest[1..]))] + Reading(Inside, rest[1..][4..])
            else [Escape(rest[0])] + Reading(Inside, rest[1..])
  {
    assert ([BACKSLASH] + rest)[1..] == rest;
    assert |rest| >= 5 ==> rest[5..] == rest[1..][4..];
  }
}
