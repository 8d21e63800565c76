/** The quoting of strings for the generated Lua filter. */
module LuaQuoting {
  import opened Common

  predicate Control(b: byte) {
    b < 0x20 || b == 0x7F
  }

  /** `\ddd`, always three digits. */
  function DecimalEscape(b: byte): Bytes {
    [BACKSLASH, ZERO + b / 100, ZERO + b / 10 % 10, ZERO + b % 10]
  }

  function Quoted(b: byte): Bytes {
    if b == BACKSLASH then [BACKSLASH, BACKSLASH]
    else if b == QUOTE then [BACKSLASH, QUOTE]
    else if Control(b) then DecimalEscape(b)
    else [b]
  }

  function Body(value: Bytes): Bytes {
    if value == [] then [] else Quoted(value[0]) + Body(value[1..])
  }

  function LuaLiteral(value: Bytes): Bytes {
    [QUOTE] + Body(value) + [QUOTE]
  }

  /** `lua_string`. Octets above 0x7F are those of non-ASCII characters, which pass unchanged. */
  method LuaString(value: Bytes) returns (out: Bytes)
    ensures out == LuaLiteral(value)
  {
    out := [QUOTE];
    var i := 0;
    while i < |value|
      invariant i <= |value|
      invariant [QUOTE] + Body(value) == out + Body(value[i..])
    {
      BodyStep(value, i, out);
      var b := value[i];
      if b == BACKSLASH {
        out := out + [BACKSLASH, BACKSLASH];
      } else if b == QUOTE {
        out := out + [BACKSLASH, QUOTE];
      } else if Control(b) {
        out := out + DecimalEscape(b);
      } else {
        out := out + [b];
      }
      i := i + 1;
    }
    assert value[i..] == [] && out + [] == out;
    out := out + [QUOTE];
  }

  lemma BodyStep(value: Bytes, i: nat, out: Bytes)
    requires i < |value|
    ensures out + Body(value[i..]) == out + Quoted(value[i]) + Body(value[i + 1..])
  {
    hide Quoted;
    assert value[i..][0] == value[i] && value[i..][1..] == value[i + 1..];
  }

  // ----- the lexer of section 2.1 of the Lua 5.1 reference manual

  predicate Digit(b: byte) {
    ZERO <= b <= 0x39
  }

  /** A read string and what follows its closing quote. */
  datatype Lexed = Lexed(value: Bytes, rest: Bytes)

  function LetterEscape(b: byte): byte {
    if b == 0x61 then 7 else if b == 0x62 then 8 else if b == 0x66 then 12 else if b == 0x6E then 10
    else if b == 0x72 then 13 else if b == 0x74 then 9 else if b == 0x76 then 11 else b
  }

  /** How many decimal digits, at most three, stand in front. */
  function DigitRun(b: Bytes): (n: nat)
    ensures n <= 3 && n <= |b|
  {
    if b == [] || !Digit(b[0]) then 0
    else if |b| == 1 || !Digit(b[1]) then 1
    else if |b| == 2 || !Digit(b[2]) then 2
    else 3
  }

  function Decimal(b: Bytes): (n: nat)
    requires forall i :: 0 <= i < |b| ==> Digit(b[i])
  {
    if b == [] then 0
    else
      var last := b[|b| - 1];
      assert Digit(last);
      10 * Decimal(b[..|b| - 1]) + (last - ZERO)
  }

  function Put(b: byte, more: Option<Lexed>): Option<Lexed> {
    if more.None? then None else Some(Lexed([b] + more.value.value, more.value.rest))
  }

  /** The inside of a double-quoted literal, up to and past its closing quote. */
  function Lex(b: Bytes): Option<Lexed>
    decreases |b|
  {
    if b == [] || b[0] == LF || b[0] == CR then None
    else if b[0] == QUOTE then Some(Lexed([], b[1..]))
    else if b[0] != BACKSLASH then Put(b[0], Lex(b[1..]))
    else
      var after := b[1..];
      var n := DigitRun(after);
      if after == [] then None
      else if n == 0 then Put(LetterEscape(after[0]), Lex(after[1..]))
      else
        var code := Decimal(after[..n]);
        if code > 255 then None else Put(code, Lex(after[n..]))
  }

  function LexLiteral(b: Bytes): Option<Lexed> {
    if b == [] || b[0] != QUOTE then None else Lex(b[1..])
  }

  lemma DecimalOfThree(x: byte, y: byte, z: byte)
    requires Digit(x) && Digit(y) && Digit(z)
    ensures Decimal([x, y, z]) == 100 * (x - ZERO) as int + 10 * (y - ZERO) as int + (z - ZERO) as int
  {
    assert [x, y, z][..2] == [x, y] && [x, y][..1] == [x] && [x][..0] == [];
    assert Decimal([x]) == x - ZERO;
    assert Decimal([x, y]) == 10 * (x - ZERO) as int + (y - ZERO) as int;
  }

  /** The escape of a control octet reads back as that octet, whatever digits follow it. */
  lemma EscapeLexes(b: byte, rest: Bytes)
    ensures Lex(DecimalEscape(b) + rest) == Put(b, Lex(rest))
  {
    var x, y, z := ZERO + b / 100, ZERO + b / 10 % 10, ZERO + b % 10;
    var text := DecimalEscape(b) + rest;
    var after := text[1..];
    assert after == [x, y, z] + rest;
    assert DigitRun(after) == 3;
    assert after[..3] == [x, y, z] && after[3..] == rest;
    assert b == 100 * (b / 100) + 10 * (b / 10 % 10) + b % 10;
    assert Decimal([x, y, z]) == b by {
      DecimalOfThree(x, y, z);
    }
  }

  lemma QuotedLexes(b: byte, rest: Bytes)
    ensures Lex(Quoted(b) + rest) == Put(b, Lex(rest))
  {
    var text := Quoted(b) + rest;
    if b == BACKSLASH || b == QUOTE {
      assert text[1..] == [b] + rest;
      assert text[1..][1..] == rest;
    } else if Control(b) {
      EscapeLexes(b, rest);
    } else {
      assert text[0] == b && text[1..] == rest;
    }
  }

  /** A quoted value lexes as one literal back to that value, wherever it is put. */
  lemma {:induction false} LiteralLexesBack(value: Bytes, rest: Bytes)
    ensures LexLiteral(LuaLiteral(value) + rest) == Some(Lexed(value, rest))
  {
    hide Body, Lex;
    BodyLexes(value, rest);
    LiteralParts(Body(value), rest);
  }

  lemma LiteralParts(body: Bytes, rest: Bytes)
    ensures ([QUOTE] + body + [QUOTE] + rest)[1..] == body + ([QUOTE] + rest)
  {
  }

  lemma {:induction false} BodyLexes(value: Bytes, rest: Bytes)
    ensures Lex(Body(value) + ([QUOTE] + rest)) == Some(Lexed(value, rest))
    decreases |value|
  {
    if value == [] {
      assert Body(value) + ([QUOTE] + rest) == [QUOTE] + rest;
      assert ([QUOTE] + rest)[1..] == rest;
    } else {
      var later := Body(value[1..]) + ([QUOTE] + rest);
      assert Body(value) + ([QUOTE] + rest) == Quoted(value[0]) + later by {
        hide Quoted;
      }
      QuotedLexes(value[0], later);
      BodyLexes(value[1..], rest);
      assert [value[0]] + value[1..] == value;
    }
  }

  /** Printable text without quotes and backslashes, and all non-ASCII text, is written as it is. */
  lemma {:induction false} PlainTextStays(value: Bytes)
    requires forall i :: 0 <= i < |value| ==>
               value[i] >= ' ' as int && value[i] != 0x7F && value[i] != '"' as int && value[i] != '\\' as int
    ensures LuaLiteral(value) == ['"' as int] + value + ['"' as int]
  {
    PlainBodyStays(value);
  }

  lemma {:induction false} PlainBodyStays(value: Bytes)
    requires forall i :: 0 <= i < |value| ==>
               value[i] >= ' ' as int && value[i] != 0x7F && value[i] != '"' as int && value[i] != '\\' as int
    ensures Body(value) == value
    decreases |value|
  {
    if value != [] {
      PlainBodyStays(value[1..]);
      assert value == [value[0]] + value[1..];
    }
  }
}
