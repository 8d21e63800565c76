/**
 The binding payload written out: the accepted values are exactly those that this module builds,
 with every key, bound and character written in full.
 */
module BindingsPayloadLaws {
  import opened Common
  import opened Json
  import opened BindingCache
  import opened BindingsPayload

  predicate LetterOrDigit(b: byte) {
    || ('0' as int <= b <= '9' as int) || ('A' as int <= b <= 'Z' as int) || ('a' as int <= b <= 'z' as int)
  }

  predicate NameByte(b: byte) {
    LetterOrDigit(b) || b == '.' as int || b == '-' as int || b == '_' as int || b == ':' as int
  }

  /** Starts with a letter or digit and goes on with those and four punctuation marks. */
  predicate GoodName(name: Bytes) {
    name != [] && LetterOrDigit(name[0]) && forall i :: 0 <= i < |name| ==> NameByte(name[i])
  }

  /** `anthropic.` and a good name. */
  predicate GoodSelector(selector: Bytes) {
    Ascii("anthropic.") <= selector && GoodName(selector[|Ascii("anthropic.")|..])
  }

  predicate GoodBinding(b: ModelBinding, snapshotRevision: nat) {
    && b.provider == Ascii("anthropic")
    && GoodName(b.model) && |b.model| <= 256
    && GoodSelector(b.upstreamModel) && |b.upstreamModel| <= 256
    && GoodName(b.responseModel) && |b.responseModel| <= 256
    && 1 <= b.revision <= snapshotRevision && b.revision <= 9_007_199_254_740_991
  }

  function RowOf(b: ModelBinding): Value {
    Object(map[
      Ascii("provider") := String(b.provider),
      Ascii("model") := String(b.model),
      Ascii("upstream_model") := String(b.upstreamModel),
      Ascii("response_model") := String(b.responseModel),
      Ascii("revision") := Number(PosInt(b.revision))])
  }

  function EnvelopeOf(network: Bytes, revision: nat, rows: seq<Value>): Value {
    Object(map[
      Ascii("schema_version") := Number(PosInt(1)),
      Ascii("network") := String(network),
      Ascii("revision") := Number(PosInt(revision)),
      Ascii("bindings") := Array(rows)])
  }

  lemma SelectorMeans(selector: Bytes)
    ensures ValidBedrockSelector(selector) <==> GoodSelector(selector) && |selector| <= 256
  {
    assert Ascii("anthropic.") == ANTHROPIC + [0x2E] by {
      var a, b := Ascii("anthropic."), Ascii("anthropic");
      assert "anthropic."[..9] == "anthropic";
      assert |a| == 10 && a[9] == 0x2E;
      assert a[..9] == b;
      assert a == a[..9] + [a[9]];
    }
    hide Ascii;
  }

  lemma NameMeans(name: Bytes)
    ensures ValidModelId(name) <==> GoodName(name) && |name| <= 256
  {
  }

  /** A map with exactly these five keys is what its five values make it. */
  lemma RowIsItsFields(fields: map<Bytes, Value>, b: ModelBinding)
    requires HasOnlyKeys(fields, ROW_KEYS)
    requires fields[PROVIDER] == String(b.provider) && fields[MODEL] == String(b.model)
    requires fields[UPSTREAM_MODEL] == String(b.upstreamModel) && fields[RESPONSE_MODEL] == String(b.responseModel)
    requires fields[REVISION] == Number(PosInt(b.revision))
    ensures Object(fields) == RowOf(b)
  {
    KeysAreDistinct();
    RowKeys(b);
    hide Ascii;
    var expected := RowOf(b).fields;
    forall k
      ensures k in fields <==> k in expected
    {
    }
    assert forall k :: k in fields ==> fields[k] == expected[k];
    assert fields == expected;
  }

  lemma RowKeys(b: ModelBinding)
    ensures RowOf(b).Object? && HasOnlyKeys(RowOf(b).fields, ROW_KEYS)
    ensures var fields := RowOf(b).fields;
            && fields[PROVIDER] == String(b.provider) && fields[MODEL] == String(b.model)
            && fields[UPSTREAM_MODEL] == String(b.upstreamModel) && fields[RESPONSE_MODEL] == String(b.responseModel)
            && fields[REVISION] == Number(PosInt(b.revision))
  {
    KeysAreDistinct();
    assert PROVIDER == ROW_KEYS[0] && MODEL == ROW_KEYS[1] && UPSTREAM_MODEL == ROW_KEYS[2];
    assert RESPONSE_MODEL == ROW_KEYS[3] && REVISION == ROW_KEYS[4];
    hide Ascii;
  }

  /** A row is read as this binding exactly if it is that binding written out, and the binding is good. */
  lemma RowIff(row: Value, revision: nat, b: ModelBinding)
    ensures AdapterRow(row, revision) == Some(b) <==> row == RowOf(b) && GoodBinding(b, revision)
  {
    NameMeans(b.model);
    NameMeans(b.responseModel);
    SelectorMeans(b.upstreamModel);
    RowKeys(b);
    hide Ascii, GoodName, GoodSelector, ValidModelId, ValidBedrockSelector, RowOf;
    assert PROVIDER in ROW_KEYS && MODEL in ROW_KEYS && UPSTREAM_MODEL in ROW_KEYS && RESPONSE_MODEL in ROW_KEYS;
    assert REVISION in ROW_KEYS;
    if AdapterRow(row, revision) == Some(b) {
      RowIsItsFields(row.fields, b);
    }
  }

  lemma EnvelopeKeys(network: Bytes, revision: nat, rows: seq<Value>)
    ensures EnvelopeOf(network, revision, rows).Object?
    ensures HasOnlyKeys(EnvelopeOf(network, revision, rows).fields, ENVELOPE_KEYS)
    ensures var fields := EnvelopeOf(network, revision, rows).fields;
            && fields[SCHEMA_VERSION] == Number(PosInt(1)) && fields[NETWORK] == String(network)
            && fields[REVISION] == Number(PosInt(revision)) && fields[BINDINGS] == Array(rows)
  {
    KeysAreDistinct();
    assert SCHEMA_VERSION == ENVELOPE_KEYS[0] && NETWORK == ENVELOPE_KEYS[1] && REVISION == ENVELOPE_KEYS[2];
    assert BINDINGS == ENVELOPE_KEYS[3];
    hide Ascii;
  }

  lemma EnvelopeIsItsFields(fields: map<Bytes, Value>, network: Bytes, revision: nat, rows: seq<Value>)
    requires HasOnlyKeys(fields, ENVELOPE_KEYS)
    requires fields[SCHEMA_VERSION] == Number(PosInt(1)) && fields[NETWORK] == String(network)
    requires fields[REVISION] == Number(PosInt(revision)) && fields[BINDINGS] == Array(rows)
    ensures Object(fields) == EnvelopeOf(network, revision, rows)
  {
    KeysAreDistinct();
    EnvelopeKeys(network, revision, rows);
    hide Ascii;
    var expected := EnvelopeOf(network, revision, rows).fields;
    forall k
      ensures k in fields <==> k in expected
    {
    }
    assert forall k :: k in fields ==> fields[k] == expected[k];
    assert fields == expected;
  }

  lemma EnvelopeIff(value: Value, network: Bytes, revision: nat, rows: seq<Value>)
    ensures AdapterEnvelope(value, network) == Some((revision, rows)) <==>
            && value == EnvelopeOf(network, revision, rows)
            && revision <= 9_007_199_254_740_991 && |rows| <= 1024
  {
    EnvelopeKeys(network, revision, rows);
    hide Ascii, EnvelopeOf;
    assert SCHEMA_VERSION in ENVELOPE_KEYS && NETWORK in ENVELOPE_KEYS && REVISION in ENVELOPE_KEYS;
    assert BINDINGS in ENVELOPE_KEYS;
    if AdapterEnvelope(value, network) == Some((revision, rows)) {
      EnvelopeIsItsFields(value.fields, network, revision, rows);
    }
  }

  function RowsOf(bindings: seq<ModelBinding>): (r: seq<Value>)
    ensures |r| == |bindings|
    ensures forall k :: 0 <= k < |r| ==> r[k] == RowOf(bindings[k])
  {
    seq(|bindings|, k requires 0 <= k < |bindings| => RowOf(bindings[k]))
  }

  /** The value is a snapshot of these bindings written out, all of them good and of different models. */
  ghost predicate IsPayload(value: Value, network: Bytes, revision: nat, bindings: seq<ModelBinding>) {
    && value == EnvelopeOf(network, revision, RowsOf(bindings))
    && revision <= 9_007_199_254_740_991 && |bindings| <= 1024
    && (forall k :: 0 <= k < |bindings| ==> GoodBinding(bindings[k], revision))
    && (forall j, k :: 0 <= j < k < |bindings| ==> bindings[j].model != bindings[k].model)
  }

  /** Accepted are exactly the payloads so written, and what is read from one are its bindings. */
  lemma AcceptsExactlyPayloads(value: Value, network: Bytes, revision: nat, bindings: seq<ModelBinding>)
    ensures IsPayload(value, network, revision, bindings) <==>
            && ValidPayload(value, network)
            && AdapterEnvelope(value, network).value.0 == revision
            && AdapterRows(AdapterEnvelope(value, network).value) == bindings
  {
    hide AdapterEnvelope, AdapterRow, EnvelopeOf, RowOf, GoodBinding;
    var rows := RowsOf(bindings);
    EnvelopeIff(value, network, revision, rows);
    if IsPayload(value, network, revision, bindings) {
      forall k | 0 <= k < |bindings|
        ensures AdapterRow(rows[k], revision) == Some(bindings[k])
      {
        RowIff(rows[k], revision, bindings[k]);
      }
      assert AdapterRows((revision, rows)) == bindings;
    }
    if && ValidPayload(value, network)
       && AdapterEnvelope(value, network).value.0 == revision
       && AdapterRows(AdapterEnvelope(value, network).value) == bindings {
      var given := AdapterEnvelope(value, network).value.1;
      forall k | 0 <= k < |bindings|
        ensures given[k] == RowOf(bindings[k]) && GoodBinding(bindings[k], revision)
      {
        assert AdapterRow(given[k], revision) == Some(bindings[k]);
        RowIff(given[k], revision, bindings[k]);
      }
      assert given == rows;
    }
  }
}
