/** The text transducers of the Envoy configuration renderer. */
module EnvoyTemplate {
  import opened Common

  const UNDERSCORE: byte := 0x5F
  const MARK: Bytes := [0x5F, 0x5F]                     // __
  const OPEN: Bytes := [0x5F, 0x5F, 0x47, 0x4D, 0x5F]   // __GM_

  // ----- substitute

  /** `str::find`: the first offset at or after i at which the needle stands. */
  function Find(hay: Bytes, needle: Bytes, i: nat): (r: Option<nat>)
    requires i <= |hay|
    ensures r.Some? ==> i <= r.value && r.value + |needle| <= |hay| && hay[r.value..r.value + |needle|] == needle
    decreases |hay| - i
  {
    if i + |needle| > |hay| then None
    else if hay[i..i + |needle|] == needle then Some(i)
    else if i == |hay| then None
    else Find(hay, needle, i + 1)
  }

  predicate NameByte(b: byte) {
    0x41 <= b <= 0x5A || 0x30 <= b <= 0x39 || b == UNDERSCORE
  }

  predicate ValidName(name: Bytes) {
    forall i :: 0 <= i < |name| ==> NameByte(name[i])
  }

  /** A template as text and the variables between it. */
  datatype Piece = Text(text: Bytes) | Var(name: Bytes)

  type Env = Bytes -> Option<Bytes>

  /** How a template divides. No value takes part in this. */
  function Pieces(text: Bytes): seq<Piece>
    decreases |text|
  {
    var start := Find(text, OPEN, 0);
    if start.None? then [Text(text)]
    else
      var after := text[start.value + 2..];
      var len := Find(after, MARK, 0);
      if len.None? then [Text(text)]
      else
        var name := after[..len.value];
        if !ValidName(name) then [Text(text[..start.value + 2])] + Pieces(after)
        else [Text(text[..start.value]), Var(name)] + Pieces(after[len.value + 2..])
  }

  /** The pieces with every variable replaced by its value, or the first name that has none. */
  function Render(pieces: seq<Piece>, env: Env): Result<Bytes, Bytes> {
    if pieces == [] then Ok([])
    else
      var head := if pieces[0].Text? then Some(pieces[0].text) else env(pieces[0].name);
      if head.None? then Err(pieces[0].name)
      else
        var tail := Render(pieces[1..], env);
        if tail.Err? then tail else Ok(head.value + tail.value)
  }

  function Prepend(out: Bytes, r: Result<Bytes, Bytes>): Result<Bytes, Bytes> {
    if r.Err? then r else Ok(out + r.value)
  }

  /** `substitute`: one pass that never looks at what it has written. */
  method Substitute(text: Bytes, env: Env) returns (r: Result<Bytes, Bytes>)
    ensures r == Render(Pieces(text), env)
  {
    hide Pieces, Render, Find, Prepend;
    var out: Bytes, rest := [], text;
    PrependNothing(Render(Pieces(text), env));
    while true
      invariant Render(Pieces(text), env) == Prepend(out, Render(Pieces(rest), env))
      decreases |rest|
    {
      var start := Find(rest, OPEN, 0);
      if start.None? {
        LastPiece(rest, env, out);
        break;
      }
      var after := rest[start.value + 2..];
      var len := Find(after, MARK, 0);
      if len.None? {
        LastPiece(rest, env, out);
        break;
      }
      var name := after[..len.value];
      if !ValidName(name) {
        SkippedMark(rest, env, out);
        out := out + rest[..start.value + 2];
        rest := after;
        continue;
      }
      VariablePiece(rest, env, out);
      var value := env(name);
      if value.None? {
        return Err(name);
      }
      out := out + rest[..start.value];
      out := out + value.value;
      rest := after[len.value + 2..];
    }
    return Ok(out + rest);
  }

  lemma PrependNothing(r: Result<Bytes, Bytes>)
    ensures Prepend([], r) == r
  {
    if r.Ok? {
      assert [] + r.value == r.value;
    }
  }

  lemma RenderText(text: Bytes, pieces: seq<Piece>, env: Env)
    ensures Render([Text(text)] + pieces, env) == Prepend(text, Render(pieces, env))
  {
    assert ([Text(text)] + pieces)[1..] == pieces;
  }

  lemma RenderVar(name: Bytes, pieces: seq<Piece>, env: Env)
    ensures Render([Var(name)] + pieces, env) ==
            if env(name).None? then Err(name) else Prepend(env(name).value, Render(pieces, env))
  {
    assert ([Var(name)] + pieces)[1..] == pieces;
  }

  lemma PrependTwice(a: Bytes, b: Bytes, r: Result<Bytes, Bytes>)
    ensures Prepend(a, Prepend(b, r)) == Prepend(a + b, r)
  {
    if r.Ok? {
      assert a + (b + r.value) == a + b + r.value;
    }
  }

  lemma LastPiece(rest: Bytes, env: Env, out: Bytes)
    requires Pieces(rest) == [Text(rest)] || Find(rest, OPEN, 0).None? ||
             Find(rest[Find(rest, OPEN, 0).value + 2..], MARK, 0).None?
    ensures Prepend(out, Render(Pieces(rest), env)) == Ok(out + rest)
  {
    hide Find;
    assert Pieces(rest) == [Text(rest)];
    hide Pieces;
    RenderText(rest, [], env);
    assert [Text(rest)] + [] == [Text(rest)] && rest + [] == rest;
  }

  lemma SkippedMark(rest: Bytes, env: Env, out: Bytes)
    requires Find(rest, OPEN, 0).Some?
    requires var after := rest[Find(rest, OPEN, 0).value + 2..];
             Find(after, MARK, 0).Some? && !ValidName(after[..Find(after, MARK, 0).value])
    ensures var start := Find(rest, OPEN, 0).value;
            Prepend(out, Render(Pieces(rest), env)) ==
            Prepend(out + rest[..start + 2], Render(Pieces(rest[start + 2..]), env))
  {
    hide Find, ValidName, Render, Prepend;
    var start := Find(rest, OPEN, 0).value;
    RenderText(rest[..start + 2], Pieces(rest[start + 2..]), env);
    PrependTwice(out, rest[..start + 2], Render(Pieces(rest[start + 2..]), env));
  }

  lemma VariablePiece(rest: Bytes, env: Env, out: Bytes)
    requires Find(rest, OPEN, 0).Some?
    requires var after := rest[Find(rest, OPEN, 0).value + 2..];
             Find(after, MARK, 0).Some? && ValidName(after[..Find(after, MARK, 0).value])
    ensures var start := Find(rest, OPEN, 0).value;
            var after := rest[start + 2..];
            var len := Find(after, MARK, 0).value;
            var value := env(after[..len]);
            Prepend(out, Render(Pieces(rest), env)) ==
            if value.None? then Err(after[..len])
            else Prepend(out + rest[..start] + value.value, Render(Pieces(after[len + 2..]), env))
  {
    hide Find, ValidName, Render;
    var start := Find(rest, OPEN, 0).value;
    var after := rest[start + 2..];
    var len := Find(after, MARK, 0).value;
    var name, later := after[..len], Pieces(after[len + 2..]);
    assert [Text(rest[..start]), Var(name)] + later == [Text(rest[..start])] + ([Var(name)] + later);
    RenderText(rest[..start], [Var(name)] + later, env);
    RenderVar(name, later, env);
    if env(name).Some? {
      PrependTwice(rest[..start], env(name).value, Render(later, env));
      PrependTwice(out, rest[..start] + env(name).value, Render(later, env));
      assert out + (rest[..start] + env(name).value) == out + rest[..start] + env(name).value;
    }
  }

  /** The environment in which every variable stands for its own token. */
  function OwnToken(name: Bytes): Option<Bytes> {
    Some(MARK + name + MARK)
  }

  /** Dividing loses nothing: when every name maps to its own token, the template comes back. */
  lemma {:induction false} SubstituteOwnTokens(text: Bytes)
    ensures Render(Pieces(text), OwnToken) == Ok(text)
    decreases |text|
  {
    hide Render, Prepend, Pieces, Find, ValidName, OwnToken;
    PrependNothing(Render(Pieces(text), OwnToken));
    var start := Find(text, OPEN, 0);
    if start.None? || Find(text[start.value + 2..], MARK, 0).None? {
      LastPiece(text, OwnToken, []);
      assert [] + text == text;
    } else {
      var after := text[start.value + 2..];
      var len := Find(after, MARK, 0).value;
      if !ValidName(after[..len]) {
        SubstituteOwnTokens(after);
        OwnMarkSkipped(text);
      } else {
        SubstituteOwnTokens(after[len + 2..]);
        OwnVariable(text);
      }
    }
  }

  lemma OwnMarkSkipped(text: Bytes)
    requires Find(text, OPEN, 0).Some?
    requires var after := text[Find(text, OPEN, 0).value + 2..];
             && Find(after, MARK, 0).Some? && !ValidName(after[..Find(after, MARK, 0).value])
             && Render(Pieces(after), OwnToken) == Ok(after)
    ensures Prepend([], Render(Pieces(text), OwnToken)) == Ok(text)
  {
    hide Render, Prepend, Pieces, Find, ValidName;
    var start := Find(text, OPEN, 0).value;
    SkippedMark(text, OwnToken, []);
    PrependOk([] + text[..start + 2], text[start + 2..]);
    assert [] + text[..start + 2] + text[start + 2..] == text;
  }

  lemma OwnVariable(text: Bytes)
    requires Find(text, OPEN, 0).Some?
    requires var after := text[Find(text, OPEN, 0).value + 2..];
             && Find(after, MARK, 0).Some? && ValidName(after[..Find(after, MARK, 0).value])
             && var rest := after[Find(after, MARK, 0).value + 2..];
                Render(Pieces(rest), OwnToken) == Ok(rest)
    ensures Prepend([], Render(Pieces(text), OwnToken)) == Ok(text)
  {
    hide Render, Prepend, Pieces, Find, ValidName;
    var start := Find(text, OPEN, 0).value;
    var after := text[start + 2..];
    var len := Find(after, MARK, 0).value;
    VariablePiece(text, OwnToken, []);
    PrependOk([] + text[..start] + (MARK + after[..len] + MARK), after[len + 2..]);
    TokenStands(text, start, len);
  }

  lemma PrependOk(a: Bytes, b: Bytes)
    ensures Prepend(a, Ok(b)) == Ok(a + b)
  {
  }

  lemma TokenStands(text: Bytes, start: nat, len: nat)
    requires start + |OPEN| <= |text| && text[start..start + |OPEN|] == OPEN
    requires start + 2 + len + 2 <= |text| && text[start + 2..][len..len + 2] == MARK
    ensures [] + text[..start] + (MARK + text[start + 2..][..len] + MARK) + text[start + 2..][len + 2..] == text
  {
    var after := text[start + 2..];
    assert text[start..start + 2] == MARK by {
      assert text[start..start + 2] == text[start..start + |OPEN|][..2];
    }
    ThreeParts(after, len, len + 2);
    ThreeParts(text, start, start + 2);
    Regroup(text[..start], MARK, after[..len], after[len + 2..]);
  }

  lemma Regroup(a: Bytes, mark: Bytes, name: Bytes, rest: Bytes)
    ensures [] + a + (mark + name + mark) + rest == a + mark + (name + mark + rest)
  {
  }

  /** A variable name is one the renderer's environment uses: upper case, digits and underscores, `GM` first. */
  lemma VariablesAreNames(text: Bytes, k: nat)
    requires k < |Pieces(text)| && Pieces(text)[k].Var?
    ensures UpperName(Pieces(text)[k].name) && |Pieces(text)[k].name| >= 2
    ensures Pieces(text)[k].name[..2] == Ascii("GM")
  {
    hide Pieces, ValidName, UpperName;
    VariableNames(text, k);
    NamesAreUpper(Pieces(text)[k].name);
    assert OPEN[2..4] == Ascii("GM");
  }

  lemma {:induction false} VariableNames(text: Bytes, k: nat)
    requires k < |Pieces(text)| && Pieces(text)[k].Var?
    ensures ValidName(Pieces(text)[k].name) && |Pieces(text)[k].name| >= 2
    ensures Pieces(text)[k].name[..2] == OPEN[2..4]
    decreases |text|
  {
    hide Find, ValidName, Pieces;
    HasVariable(text, k);
    var start := Find(text, OPEN, 0).value;
    var after := text[start + 2..];
    var len := Find(after, MARK, 0).value;
    PiecesOf(text);
    if !ValidName(after[..len]) {
      VariableNames(after, k - 1);
    } else {
      if k >= 2 {
        VariableNames(after[len + 2..], k - 2);
      } else {
        NameStartsWithGm(text, start, len);
      }
    }
  }

  lemma HasVariable(text: Bytes, k: nat)
    requires k < |Pieces(text)| && Pieces(text)[k].Var?
    ensures Find(text, OPEN, 0).Some? && Find(text[Find(text, OPEN, 0).value + 2..], MARK, 0).Some?
  {
    hide Find, ValidName;
  }

  lemma PiecesOf(text: Bytes)
    requires Find(text, OPEN, 0).Some? && Find(text[Find(text, OPEN, 0).value + 2..], MARK, 0).Some?
    ensures var start := Find(text, OPEN, 0).value;
            var after := text[start + 2..];
            var len := Find(after, MARK, 0).value;
            Pieces(text) == if !ValidName(after[..len]) then [Text(text[..start + 2])] + Pieces(after)
                            else [Text(text[..start]), Var(after[..len])] + Pieces(after[len + 2..])
  {
    hide Find, ValidName;
  }

  lemma NameStartsWithGm(text: Bytes, start: nat, len: nat)
    requires start + |OPEN| <= |text| && text[start..start + |OPEN|] == OPEN
    requires start + 2 + len + 2 <= |text| && text[start + 2..][len..len + 2] == MARK
    ensures len >= 2 && text[start + 2..][..len][..2] == OPEN[2..4]
  {
    var after := text[start + 2..];
    assert after[0] == text[start..start + |OPEN|][2] && after[1] == text[start..start + |OPEN|][3];
    assert after[len] == after[len..len + 2][0];
    assert after[..len][..2] == after[..2];
  }

  // ----- what rendering gives

  /** What a piece becomes, None for a variable that is not set. */
  function Filled(p: Piece, env: Env): Option<Bytes> {
    if p.Text? then Some(p.text) else env(p.name)
  }

  function Joined(parts: seq<Bytes>): Bytes {
    if parts == [] then [] else parts[0] + Joined(parts[1..])
  }

  ghost predicate AllSet(pieces: seq<Piece>, env: Env) {
    forall k :: 0 <= k < |pieces| ==> Filled(pieces[k], env).Some?
  }

  function Values(pieces: seq<Piece>, env: Env): (r: seq<Bytes>)
    requires forall k :: 0 <= k < |pieces| ==> Filled(pieces[k], env).Some?
    ensures |r| == |pieces|
  {
    seq(|pieces|, k requires 0 <= k < |pieces| => Filled(pieces[k], env).value)
  }

  /** Variable k is the first that is not set. */
  ghost predicate FirstUnset(pieces: seq<Piece>, env: Env, k: int, name: Bytes) {
    && 0 <= k < |pieces| && pieces[k] == Var(name) && env(name).None?
    && forall j :: 0 <= j < k ==> Filled(pieces[j], env).Some?
  }

  ghost predicate UnsetFirst(pieces: seq<Piece>, env: Env, name: Bytes) {
    exists k :: FirstUnset(pieces, env, k, name)
  }

  /** Either every variable is set and the values stand in order between the text, or the first unset one is named. */
  lemma {:induction false} RenderIs(pieces: seq<Piece>, env: Env)
    ensures AllSet(pieces, env) ==> Render(pieces, env) == Ok(Joined(Values(pieces, env)))
    ensures forall name :: Render(pieces, env) == Err(name) <==> UnsetFirst(pieces, env, name)
    decreases |pieces|
  {
    if pieces != [] {
      var p, rest := pieces[0], pieces[1..];
      RenderIs(rest, env);
      assert forall k :: 0 <= k < |rest| ==> rest[k] == pieces[k + 1];
      if Filled(p, env).None? {
        assert FirstUnset(pieces, env, 0, p.name);
        assert forall k, name :: FirstUnset(pieces, env, k, name) ==> k == 0;
      } else {
        if AllSet(pieces, env) {
          assert Values(pieces, env)[0] == Filled(p, env).value;
          assert Values(pieces, env)[1..] == Values(rest, env);
        }
        forall name
          ensures UnsetFirst(pieces, env, name) <==> UnsetFirst(rest, env, name)
        {
          UnsetOneLater(p, rest, env, name);
          assert pieces == [p] + rest;
        }
      }
    }
  }

  lemma UnsetOneLater(p: Piece, rest: seq<Piece>, env: Env, name: Bytes)
    requires Filled(p, env).Some?
    ensures UnsetFirst([p] + rest, env, name) <==> UnsetFirst(rest, env, name)
  {
    var all := [p] + rest;
    assert all[0] == p && forall k :: 0 <= k < |rest| ==> all[k + 1] == rest[k];
    if UnsetFirst(all, env, name) {
      var k :| FirstUnset(all, env, k, name);
      assert k > 0;
      assert FirstUnset(rest, env, k - 1, name);
    }
    if UnsetFirst(rest, env, name) {
      var k :| FirstUnset(rest, env, k, name);
      forall j | 0 <= j < k + 1
        ensures Filled(all[j], env).Some?
      {
        if j > 0 {
          assert all[j] == rest[j - 1];
        }
      }
      assert FirstUnset(all, env, k + 1, name);
    }
  }

  // ----- which tokens are read

  predicate StandsAt(hay: Bytes, needle: Bytes, k: int) {
    0 <= k && k + |needle| <= |hay| && hay[k..k + |needle|] == needle
  }

  lemma {:induction false} FindIsFirst(hay: Bytes, needle: Bytes, i: nat)
    requires i <= |hay|
    ensures var r := Find(hay, needle, i);
            && (r.Some? ==>
                  StandsAt(hay, needle, r.value) && forall k :: i <= k < r.value ==> !StandsAt(hay, needle, k))
            && (r.None? ==> forall k :: i <= k ==> !StandsAt(hay, needle, k))
    decreases |hay| - i
  {
    if i + |needle| <= |hay| && hay[i..i + |needle|] != needle && i < |hay| {
      FindIsFirst(hay, needle, i + 1);
    }
  }

  /** A needle stands first at k when it stands there and nowhere before. */
  lemma FoundAt(hay: Bytes, needle: Bytes, k: nat)
    requires StandsAt(hay, needle, k)
    ensures Find(hay, needle, 0) == Some(k) <==> forall j :: 0 <= j < k ==> !StandsAt(hay, needle, j)
  {
    FindIsFirst(hay, needle, 0);
  }

  /** A token that starts before another could only reach its first underscore. */
  lemma NoOverlap(a: Bytes, rest: Bytes, k: nat)
    requires OPEN <= rest && k < |a|
    ensures StandsAt(a + rest, OPEN, k) <==> StandsAt(a + [UNDERSCORE], OPEN, k)
  {
    var text, short := a + rest, a + [UNDERSCORE];
    assert rest[0] == UNDERSCORE && rest[1] == UNDERSCORE;
    if k + |OPEN| <= |short| {
      assert text[k..k + |OPEN|] == short[k..k + |OPEN|];
    } else {
      var d := |a| - k;
      assert text[k..k + |OPEN|][d] == rest[0] && text[k..k + |OPEN|][d + 1] == rest[1];
      assert OPEN[d] != UNDERSCORE || OPEN[d + 1] != UNDERSCORE;
    }
  }

  /** Where a token begins: nothing before it, not even with its first underscore, looks like one. */
  lemma OpenIsFirst(a: Bytes, rest: Bytes)
    requires OPEN <= rest
    ensures Find(a + rest, OPEN, 0) == Some(|a|) <==> Find(a + [UNDERSCORE], OPEN, 0).None?
  {
    hide Find;
    var text, short := a + rest, a + [UNDERSCORE];
    assert StandsAt(text, OPEN, |a|) by {
      assert text[|a|..|a| + |OPEN|] == rest[..|OPEN|];
    }
    assert forall k :: |a| <= k ==> !StandsAt(short, OPEN, k);
    hide StandsAt;
    FoundAt(text, OPEN, |a|);
    FindIsFirst(short, OPEN, 0);
    forall k | 0 <= k < |a|
      ensures StandsAt(text, OPEN, k) <==> StandsAt(short, OPEN, k)
    {
      NoOverlap(a, rest, k);
    }
  }

  /** Where its name ends: at the first two underscores, which may overlap the name's own last. */
  lemma MarkIsFirst(name: Bytes, b: Bytes)
    ensures Find(name + MARK + b, MARK, 0) == Some(|name|) <==> Find(name + [UNDERSCORE], MARK, 0).None?
  {
    var text, short := name + MARK + b, name + [UNDERSCORE];
    assert text[|name|..|name| + |MARK|] == MARK;
    assert short <= text;
    FoundAt(text, MARK, |name|);
    FindIsFirst(short, MARK, 0);
    forall k | 0 <= k < |name|
      ensures StandsAt(text, MARK, k) <==> StandsAt(short, MARK, k)
    {
      assert text[k..k + |MARK|] == short[k..k + |MARK|];
    }
    assert forall k :: |name| <= k ==> !StandsAt(short, MARK, k);
  }

  /** Upper-case letters, digits and underscores. */
  predicate UpperName(name: Bytes) {
    forall i :: 0 <= i < |name| ==>
      || 'A' as int <= name[i] <= 'Z' as int || '0' as int <= name[i] <= '9' as int || name[i] == '_' as int
  }

  lemma NamesAreUpper(name: Bytes)
    ensures ValidName(name) <==> UpperName(name)
  {
  }

  /** A name that can be read as one: it is valid, its token opens, and no mark ends it early. */
  predicate Readable(name: Bytes) {
    UpperName(name) && OPEN <= MARK + name + [UNDERSCORE] && Find(name + [UNDERSCORE], MARK, 0).None?
  }

  lemma PiecesStartWithText(text: Bytes)
    ensures Pieces(text) != [] && Pieces(text)[0].Text?
  {
    hide Find, ValidName;
  }

  /**
   A token is read as its variable, between exactly the text before it and the pieces of what
   follows, if and only if its name is readable and nothing before it looks like a token.
   */
  lemma TokenIsReadIff(a: Bytes, name: Bytes, b: Bytes)
    ensures Pieces(a + (MARK + name + MARK + b)) == [Text(a), Var(name)] + Pieces(b) <==>
            Readable(name) && Find(a + [UNDERSCORE], OPEN, 0).None?
  {
    NamesAreUpper(name);
    hide Find, ValidName, UpperName, Pieces;
    var rest := MARK + name + MARK + b;
    var text := a + rest;
    assert text[|a| + 2..] == name + MARK + b;
    if Readable(name) && Find(a + [UNDERSCORE], OPEN, 0).None? {
      assert OPEN <= rest by {
        OpensWithMark(name, b);
      }
      OpenIsFirst(a, rest);
      MarkIsFirst(name, b);
      PiecesOf(text);
      var after := name + MARK + b;
      assert text[..|a|] == a && after[..|name|] == name && after[|name| + 2..] == b;
    }
    if Pieces(text) == [Text(a), Var(name)] + Pieces(b) {
      ReadBack(a, name, b);
    }
  }

  lemma OpensWithMark(name: Bytes, b: Bytes)
    ensures OPEN <= MARK + name + MARK + b <==> OPEN <= MARK + name + [UNDERSCORE]
  {
    var long, short := MARK + name + MARK + b, MARK + name + [UNDERSCORE];
    assert short <= long;
    assert long[2 + |name|] == UNDERSCORE;
    assert OPEN[2] != UNDERSCORE && OPEN[3] != UNDERSCORE;
    if |name| >= 2 {
      assert long[..|OPEN|] == short[..|OPEN|];
    }
  }

  lemma ReadBack(a: Bytes, name: Bytes, b: Bytes)
    requires Pieces(a + (MARK + name + MARK + b)) == [Text(a), Var(name)] + Pieces(b)
    ensures Readable(name) && Find(a + [UNDERSCORE], OPEN, 0).None?
  {
    NamesAreUpper(name);
    hide Find, ValidName, UpperName, Pieces;
    var rest := MARK + name + MARK + b;
    var text := a + rest;
    assert Pieces(text)[0] == Text(a) && Pieces(text)[1] == Var(name);
    HasVariable(text, 1);
    PiecesOf(text);
    var start := Find(text, OPEN, 0).value;
    var after := text[start + 2..];
    var len := Find(after, MARK, 0).value;
    if !ValidName(after[..len]) {
      PiecesStartWithText(after);
      assert false;
    }
    assert a == text[..start];
    assert start == |a| && after[..len] == name;
    assert len == |name|;
    assert after == name + MARK + b;
    assert OPEN <= rest by {
      assert text[start..start + |OPEN|] == OPEN;
      assert rest[..|OPEN|] == text[start..start + |OPEN|];
    }
    OpensWithMark(name, b);
    OpenIsFirst(a, rest);
    MarkIsFirst(name, b);
  }

  lemma NoOpen(text: Bytes)
    requires forall k :: 0 <= k < |text| - 4 ==> text[k] != UNDERSCORE
    ensures Find(text, OPEN, 0).None?
  {
    hide Find;
    forall k | 0 <= k
      ensures !StandsAt(text, OPEN, k)
    {
      if k + |OPEN| <= |text| {
        assert text[k..k + |OPEN|][0] == text[k];
      }
    }
    FindIsFirst(text, OPEN, 0);
  }

  lemma NoToken(text: Bytes)
    requires forall k :: 0 <= k < |text| - 4 ==> text[k] != UNDERSCORE
    ensures Find(text, OPEN, 0).None? && Pieces(text) == [Text(text)]
  {
    hide Find, ValidName;
    NoOpen(text);
  }

  lemma NoMark(text: Bytes)
    requires forall k :: 0 <= k < |text| - 1 ==> text[k] != UNDERSCORE || text[k + 1] != UNDERSCORE
    ensures Find(text, MARK, 0).None?
  {
    FindIsFirst(text, MARK, 0);
    hide Find;
    forall k | 0 <= k
      ensures !StandsAt(text, MARK, k)
    {
      if k + |MARK| <= |text| {
        assert text[k..k + |MARK|][0] == text[k] && text[k..k + |MARK|][1] == text[k + 1];
      }
    }
  }

  /** A token at the start of a template, and no other behind it. */
  lemma OneToken(name: Bytes, rest: Bytes)
    requires UpperName(name) && OPEN <= MARK + name + [UNDERSCORE]
    requires forall k :: 0 <= k < |name| ==>
               (name + [UNDERSCORE])[k] != UNDERSCORE || (name + [UNDERSCORE])[k + 1] != UNDERSCORE
    requires forall k :: 0 <= k < |rest| - 4 ==> rest[k] != UNDERSCORE
    ensures Pieces(MARK + name + MARK + rest) == [Text([]), Var(name), Text(rest)]
  {
    hide Find, Pieces, UpperName;
    assert [] + (MARK + name + MARK + rest) == MARK + name + MARK + rest;
    NoMark(name + [UNDERSCORE]);
    NoToken([] + [UNDERSCORE]);
    NoToken(rest);
    TokenIsReadIff([], name, rest);
  }

  /** `__GM_X___` is not read as the variable `GM_X_`: its own last underscore is part of the closing mark. */
  lemma UnderscoreExample()
    ensures var gmX: Bytes := [0x47, 0x4D, 0x5F, 0x58];
            Pieces(MARK + gmX + MARK + [UNDERSCORE]) == [Text([]), Var(gmX), Text([UNDERSCORE])]
  {
    hide Find, Pieces;
    OneToken([0x47, 0x4D, 0x5F, 0x58], [UNDERSCORE]);
  }

  /** `__GM__GM_X__` is not text and the variable `GM_X`: a variable `GM` takes the opening mark. */
  lemma SwallowedExample()
    ensures var gm: Bytes, rest: Bytes := [0x47, 0x4D], [0x47, 0x4D, 0x5F, 0x58, 0x5F, 0x5F];
            Pieces(MARK + gm + MARK + rest) == [Text([]), Var(gm), Text(rest)]
  {
    hide Find, Pieces;
    OneToken([0x47, 0x4D], [0x47, 0x4D, 0x5F, 0x58, 0x5F, 0x5F]);
  }
}
