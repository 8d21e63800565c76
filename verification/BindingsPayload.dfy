/**
 The registry's model-binding payload, as read by two programs: the adapter inside the enclave
 and the operator's command line. Each validates it with code of its own.
 */
module BindingsPayload {
  import opened Common
  import opened Json
  import opened BindingCache

  const MAX_MODEL_BINDINGS: nat := 1024
  const MAX_MODEL_ID_BYTES: nat := 256
  const MAX_SAFE_INTEGER: nat := 9_007_199_254_740_991

  const SCHEMA_VERSION := Ascii("schema_version")
  const NETWORK := Ascii("network")
  const REVISION := Ascii("revision")
  const BINDINGS := Ascii("bindings")
  const PROVIDER := Ascii("provider")
  const UPSTREAM_MODEL := Ascii("upstream_model")
  const RESPONSE_MODEL := Ascii("response_model")
  const ANTHROPIC := Ascii("anthropic")

  const ENVELOPE_KEYS := [SCHEMA_VERSION, NETWORK, REVISION, BINDINGS]
  const ROW_KEYS := [PROVIDER, MODEL, UPSTREAM_MODEL, RESPONSE_MODEL, REVISION]

  predicate Alphanumeric(b: byte) {
    0x30 <= b <= 0x39 || 0x41 <= b <= 0x5A || 0x61 <= b <= 0x7A
  }

  /** Letters, digits, and the four punctuation marks `.`, `-`, `_` and `:`. */
  predicate IdentifierByte(b: byte) {
    Alphanumeric(b) || b == 0x2E || b == 0x2D || b == 0x5F || b == 0x3A
  }

  predicate ValidModelId(value: Bytes) {
    && 0 < |value| <= MAX_MODEL_ID_BYTES
    && Alphanumeric(value[0])
    && forall i :: 0 <= i < |value| ==> IdentifierByte(value[i])
  }

  predicate ValidBedrockSelector(value: Bytes) {
    var prefix := ANTHROPIC + [0x2E];
    && prefix < value
    && |value| <= MAX_MODEL_ID_BYTES
    && var suffix := value[|prefix|..];
       Alphanumeric(suffix[0]) && forall i :: 0 <= i < |suffix| ==> IdentifierByte(suffix[i])
  }

  predicate ValidRowRevision(value: Option<nat>, snapshot: nat) {
    value.Some? && 0 < value.value <= MAX_SAFE_INTEGER && value.value <= snapshot
  }

  predicate ValidText(value: Option<Bytes>, valid: Bytes -> bool) {
    value.Some? && valid(value.value)
  }

  // ----- the adapter

  /** `object_has_only_keys`: no other key, and every allowed one. */
  predicate HasOnlyKeys(fields: map<Bytes, Value>, allowed: seq<Bytes>) {
    (forall k :: k in fields ==> k in allowed) && (forall k :: k in allowed ==> k in fields)
  }

  function AdapterRow(row: Value, revision: nat): Option<ModelBinding> {
    if !(row.Object? && HasOnlyKeys(row.fields, ROW_KEYS)) then None
    else
      var provider := AsText(Get(row, PROVIDER));
      var model := AsText(Get(row, MODEL));
      var upstream := AsText(Get(row, UPSTREAM_MODEL));
      var response := AsText(Get(row, RESPONSE_MODEL));
      var rowRevision := AsUnsigned(Get(row, REVISION));
      if !(provider.Some? && provider.value == ANTHROPIC) then None
      else if !ValidText(model, ValidModelId) then None
      else if !ValidText(upstream, ValidBedrockSelector) then None
      else if !ValidText(response, ValidModelId) then None
      else if !ValidRowRevision(rowRevision, revision) then None
      else Some(ModelBinding(provider.value, model.value, upstream.value, response.value, rowRevision.value))
  }

  /** The checks on the envelope: the snapshot revision and the rows, or None. */
  function AdapterEnvelope(value: Value, expected: Bytes): Option<(nat, seq<Value>)> {
    if !(value.Object? && HasOnlyKeys(value.fields, ENVELOPE_KEYS)) then None
    else if AsUnsigned(Get(value, SCHEMA_VERSION)) != Some(1) then None
    else
      var network := AsText(Get(value, NETWORK));
      var revision := AsUnsigned(Get(value, REVISION));
      var rows := Get(value, BINDINGS);
      if network.None? || network.value != expected then None
      else if revision.None? || revision.value > MAX_SAFE_INTEGER then None
      else if rows.None? || !rows.value.Array? || |rows.value.items| > MAX_MODEL_BINDINGS then None
      else Some((revision.value, rows.value.items))
  }

  /** `parse_bindings_payload`, from the parsed JSON value on. */
  method ParseBindingsPayload(value: Value, expected: Bytes) returns (r: Option<Snapshot>)
    ensures r.Some? <==> ValidPayload(value, expected)
    ensures r.Some? ==>
              && r.value.network == expected
              && r.value.revision == AdapterEnvelope(value, expected).value.0
              && r.value.bindings == RowsByModel(AdapterRows(AdapterEnvelope(value, expected).value))
  {
    hide AdapterEnvelope, AdapterRow, RowsByModel, DistinctModels;
    var envelope := AdapterEnvelope(value, expected);
    if envelope.None? {
      return None;
    }
    var (revision, rows) := envelope.value;
    NoRows();
    var bindings: map<Bytes, ModelBinding> := map[];
    ghost var done: seq<ModelBinding> := [];
    var i := 0;
    while i < |rows|
      invariant i == |done| <= |rows|
      invariant forall k :: 0 <= k < i ==> AdapterRow(rows[k], revision) == Some(done[k])
      invariant DistinctModels(done)
      invariant bindings == RowsByModel(done)
    {
      var row := AdapterRow(rows[i], revision);
      if row.None? {
        return None;
      }
      if row.value.model in bindings {
        RowsByModelDomain(done);
        DuplicateRefused(rows, revision, done, i);
        return None;
      }
      ExtendDistinct(done, row.value);
      bindings := bindings[row.value.model := row.value];
      done := done + [row.value];
      i := i + 1;
    }
    assert AdapterRows(envelope.value) == done;
    return Some(Snapshot(expected, revision, bindings));
  }

  // ----- what both are to accept

  ghost predicate DistinctModels(rows: seq<ModelBinding>) {
    forall i, j :: 0 <= i < j < |rows| ==> rows[i].model != rows[j].model
  }

  /** The payload's rows, in the order in which they were sent. */
  function AdapterRows(envelope: (nat, seq<Value>)): (rows: seq<ModelBinding>)
    requires forall k :: 0 <= k < |envelope.1| ==> AdapterRow(envelope.1[k], envelope.0).Some?
    ensures |rows| == |envelope.1|
    ensures forall k :: 0 <= k < |rows| ==> AdapterRow(envelope.1[k], envelope.0) == Some(rows[k])
  {
    seq(|envelope.1|, k requires 0 <= k < |envelope.1| => AdapterRow(envelope.1[k], envelope.0).value)
  }

  ghost predicate ValidPayload(value: Value, expected: Bytes) {
    var envelope := AdapterEnvelope(value, expected);
    && envelope.Some?
    && (forall k :: 0 <= k < |envelope.value.1| ==> AdapterRow(envelope.value.1[k], envelope.value.0).Some?)
    && DistinctModels(AdapterRows(envelope.value))
  }

  ghost function RowsByModel(rows: seq<ModelBinding>): map<Bytes, ModelBinding> {
    if rows == [] then map[]
    else RowsByModel(rows[..|rows| - 1])[rows[|rows| - 1].model := rows[|rows| - 1]]
  }

  lemma {:induction false} HasItsRow(rows: seq<ModelBinding>, i: nat)
    requires DistinctModels(rows) && i < |rows|
    ensures rows[i].model in RowsByModel(rows) && RowsByModel(rows)[rows[i].model] == rows[i]
    decreases |rows|
  {
    var before := rows[..|rows| - 1];
    if i < |before| {
      HasItsRow(before, i);
      assert before[i] == rows[i];
    }
  }

  lemma {:induction false} RowIndex(rows: seq<ModelBinding>, m: Bytes) returns (i: nat)
    requires m in RowsByModel(rows)
    ensures i < |rows| && rows[i].model == m
    decreases |rows|
  {
    i := |rows| - 1;
    if m != rows[i].model {
      var before := rows[..i];
      i := RowIndex(before, m);
      assert before[i] == rows[i];
    }
  }

  lemma RowsByModelDomain(rows: seq<ModelBinding>)
    requires DistinctModels(rows)
    ensures forall i :: 0 <= i < |rows| ==>
              rows[i].model in RowsByModel(rows) && RowsByModel(rows)[rows[i].model] == rows[i]
    ensures forall m :: m in RowsByModel(rows) ==> exists i :: 0 <= i < |rows| && rows[i].model == m
  {
    hide RowsByModel;
    forall i | 0 <= i < |rows|
      ensures rows[i].model in RowsByModel(rows) && RowsByModel(rows)[rows[i].model] == rows[i]
    {
      HasItsRow(rows, i);
    }
    forall m | m in RowsByModel(rows)
      ensures exists i :: 0 <= i < |rows| && rows[i].model == m
    {
      var i := RowIndex(rows, m);
    }
  }

  lemma NoRows()
    ensures RowsByModel([]) == map[] && DistinctModels([])
  {
  }

  lemma DuplicateRefused(rows: seq<Value>, revision: nat, done: seq<ModelBinding>, i: nat)
    requires i == |done| < |rows|
    requires forall k :: 0 <= k < i ==> AdapterRow(rows[k], revision) == Some(done[k])
    requires AdapterRow(rows[i], revision).Some?
    requires exists j :: 0 <= j < i && done[j].model == AdapterRow(rows[i], revision).value.model
    ensures (forall k :: 0 <= k < |rows| ==> AdapterRow(rows[k], revision).Some?) ==>
              !DistinctModels(AdapterRows((revision, rows)))
  {
    var j :| 0 <= j < i && done[j].model == AdapterRow(rows[i], revision).value.model;
    if forall k :: 0 <= k < |rows| ==> AdapterRow(rows[k], revision).Some? {
      var all := AdapterRows((revision, rows));
      assert all[j] == done[j] && all[i].model == done[j].model;
    }
  }

  lemma ExtendDistinct(rows: seq<ModelBinding>, row: ModelBinding)
    requires DistinctModels(rows) && row.model !in RowsByModel(rows)
    ensures DistinctModels(rows + [row])
    ensures RowsByModel(rows + [row]) == RowsByModel(rows)[row.model := row]
  {
    RowsByModelDomain(rows);
    assert (rows + [row])[..|rows|] == rows;
  }

  // ----- the command line

  datatype BedrockModelBinding = BedrockModelBinding(
    model: Bytes, upstreamModel: Bytes, responseModel: Bytes, revision: nat)

  /** `object_has_exact_keys`: as many keys as expected, and every expected one. */
  predicate HasExactKeys(fields: map<Bytes, Value>, expected: seq<Bytes>) {
    |fields| == |expected| && forall k :: k in expected ==> k in fields
  }

  function CliRow(row: Value, revision: nat): Option<BedrockModelBinding> {
    if !(row.Object? && HasExactKeys(row.fields, ROW_KEYS)) then None
    else if AsText(Get(row, PROVIDER)) != Some(ANTHROPIC) then None
    else
      var model := AsText(Get(row, MODEL));
      var upstream := AsText(Get(row, UPSTREAM_MODEL));
      var response := AsText(Get(row, RESPONSE_MODEL));
      var rowRevision := AsUnsigned(Get(row, REVISION));
      if !ValidText(model, ValidModelId) then None
      else if !ValidText(upstream, ValidBedrockSelector) then None
      else if !ValidText(response, ValidModelId) then None
      else if !ValidRowRevision(rowRevision, revision) then None
      else Some(BedrockModelBinding(model.value, upstream.value, response.value, rowRevision.value))
  }

  function CliEnvelope(value: Value, network: Bytes): Option<(nat, seq<Value>)> {
    if !(value.Object? && HasExactKeys(value.fields, ENVELOPE_KEYS)) then None
    else if AsUnsigned(Get(value, SCHEMA_VERSION)) != Some(1) then None
    else if AsText(Get(value, NETWORK)) != Some(network) then None
    else
      var revision := AsUnsigned(Get(value, REVISION));
      var rows := Get(value, BINDINGS);
      if revision.None? || revision.value > MAX_SAFE_INTEGER then None
      else if rows.None? || !rows.value.Array? || |rows.value.items| > MAX_MODEL_BINDINGS then None
      else Some((revision.value, rows.value.items))
  }

  /** The byte order of Rust strings. */
  predicate LexLess(a: Bytes, b: Bytes)
    decreases |a|
  {
    b != [] && (a == [] || a[0] < b[0] || (a[0] == b[0] && LexLess(a[1..], b[1..])))
  }

  lemma {:induction false} LexTotal(a: Bytes, b: Bytes)
    ensures LexLess(a, b) || a == b || LexLess(b, a)
    decreases |a|
  {
    if a != [] && b != [] && a[0] == b[0] {
      LexTotal(a[1..], b[1..]);
      if a[1..] == b[1..] {
        assert a == [a[0]] + a[1..] && b == [b[0]] + b[1..];
      }
    }
  }

  lemma {:induction false} LexTransitive(a: Bytes, b: Bytes, c: Bytes)
    requires LexLess(a, b) && LexLess(b, c)
    ensures LexLess(a, c)
    decreases |a|
  {
    if a != [] && a[0] == b[0] == c[0] {
      LexTransitive(a[1..], b[1..], c[1..]);
    }
  }

  lemma {:induction false} LexIrreflexive(a: Bytes)
    ensures !LexLess(a, a)
    decreases |a|
  {
    if a != [] {
      LexIrreflexive(a[1..]);
    }
  }

  predicate Ascending(rows: seq<BedrockModelBinding>) {
    forall i, j :: 0 <= i < j < |rows| ==> LexLess(rows[i].model, rows[j].model)
  }

  /** A row put in its place among rows of other models that are in order. */
  function Insert(row: BedrockModelBinding, rows: seq<BedrockModelBinding>): seq<BedrockModelBinding> {
    if rows == [] || LexLess(row.model, rows[0].model) then [row] + rows
    else [rows[0]] + Insert(row, rows[1..])
  }

  /** `sort_by` on the model. With distinct models every sort gives this result. */
  function SortByModel(rows: seq<BedrockModelBinding>): seq<BedrockModelBinding> {
    if rows == [] then [] else Insert(rows[|rows| - 1], SortByModel(rows[..|rows| - 1]))
  }

  lemma {:induction false} InsertKeepsOrder(row: BedrockModelBinding, rows: seq<BedrockModelBinding>)
    requires Ascending(rows)
    requires forall i :: 0 <= i < |rows| ==> rows[i].model != row.model
    ensures Ascending(Insert(row, rows))
    ensures multiset(Insert(row, rows)) == multiset(rows) + multiset{row}
    ensures |Insert(row, rows)| == |rows| + 1
    ensures forall x :: x in Insert(row, rows) ==> x == row || x in rows
    decreases |rows|
  {
    if rows != [] && !LexLess(row.model, rows[0].model) {
      var first, tail := rows[0], rows[1..];
      LexTotal(row.model, first.model);
      assert rows == [first] + tail;
      hide LexLess;
      InsertKeepsOrder(row, tail);
      PrependLeast(first, Insert(row, tail), tail, row);
      assert Insert(row, rows) == [first] + Insert(row, tail);
    } else if rows != [] {
      forall j | 0 <= j < |rows|
        ensures LexLess(row.model, rows[j].model)
      {
        if j > 0 {
          LexTransitive(row.model, rows[0].model, rows[j].model);
        }
      }
    }
  }

  lemma PrependLeast(first: BedrockModelBinding, rest: seq<BedrockModelBinding>,
                     tail: seq<BedrockModelBinding>, row: BedrockModelBinding)
    requires Ascending(rest) && LexLess(first.model, row.model)
    requires Ascending([first] + tail)
    requires forall x :: x in rest ==> x == row || x in tail
    ensures Ascending([first] + rest)
  {
    forall i, j | 0 <= i < j < |[first] + rest|
      ensures LexLess(([first] + rest)[i].model, ([first] + rest)[j].model)
    {
      hide LexLess;
      var x := rest[j - 1];
      assert x in rest && ([first] + rest)[j] == x;
      if i > 0 {
        assert ([first] + rest)[i] == rest[i - 1];
      } else if x != row {
        var k :| 0 <= k < |tail| && tail[k] == x;
        assert ([first] + tail)[k + 1] == x && ([first] + tail)[0] == first;
      }
    }
  }

  ghost predicate DistinctCli(rows: seq<BedrockModelBinding>) {
    forall i, j :: 0 <= i < j < |rows| ==> rows[i].model != rows[j].model
  }

  /** Sorting rows of distinct models orders them and neither drops, adds nor changes any. */
  lemma {:induction false} SortOrders(rows: seq<BedrockModelBinding>)
    requires DistinctCli(rows)
    ensures Ascending(SortByModel(rows))
    ensures multiset(SortByModel(rows)) == multiset(rows)
    decreases |rows|
  {
    if rows != [] {
      var before, last := rows[..|rows| - 1], rows[|rows| - 1];
      assert before + [last] == rows;
      SortOrders(before);
      var sorted := SortByModel(before);
      hide Ascending, Insert;
      NoneHasModel(before, sorted, last);
      InsertKeepsOrder(last, sorted);
      assert rows == before + [last];
    }
  }

  lemma NoneHasModel(before: seq<BedrockModelBinding>, sorted: seq<BedrockModelBinding>, last: BedrockModelBinding)
    requires multiset(sorted) == multiset(before) && DistinctCli(before + [last])
    ensures forall i :: 0 <= i < |sorted| ==> sorted[i].model != last.model
  {
    forall i | 0 <= i < |sorted|
      ensures sorted[i].model != last.model
    {
      assert sorted[i] in multiset(sorted);
      var k :| 0 <= k < |before| && before[k] == sorted[i];
      assert (before + [last])[k] == before[k] && (before + [last])[|before|] == last;
    }
  }

  function CliRows(envelope: (nat, seq<Value>)): (rows: seq<BedrockModelBinding>)
    requires forall k :: 0 <= k < |envelope.1| ==> CliRow(envelope.1[k], envelope.0).Some?
    ensures |rows| == |envelope.1|
    ensures forall k :: 0 <= k < |rows| ==> CliRow(envelope.1[k], envelope.0) == Some(rows[k])
  {
    seq(|envelope.1|, k requires 0 <= k < |envelope.1| => CliRow(envelope.1[k], envelope.0).value)
  }

  ghost predicate CliAccepts(value: Value, network: Bytes) {
    var envelope := CliEnvelope(value, network);
    && envelope.Some?
    && (forall k :: 0 <= k < |envelope.value.1| ==> CliRow(envelope.value.1[k], envelope.value.0).Some?)
    && DistinctCli(CliRows(envelope.value))
  }

  lemma CliDuplicateRefused(rows: seq<Value>, revision: nat, done: seq<BedrockModelBinding>, i: nat)
    requires i == |done| < |rows|
    requires forall k :: 0 <= k < i ==> CliRow(rows[k], revision) == Some(done[k])
    requires CliRow(rows[i], revision).Some?
    requires exists j :: 0 <= j < i && done[j].model == CliRow(rows[i], revision).value.model
    ensures (forall k :: 0 <= k < |rows| ==> CliRow(rows[k], revision).Some?) ==>
              !DistinctCli(CliRows((revision, rows)))
  {
    var j :| 0 <= j < i && done[j].model == CliRow(rows[i], revision).value.model;
    if forall k :: 0 <= k < |rows| ==> CliRow(rows[k], revision).Some? {
      var all := CliRows((revision, rows));
      assert all[j] == done[j] && all[i].model == done[j].model;
    }
  }

  /** `parse_bindings`, from the parsed JSON value on. */
  method ParseBindings(value: Value, network: Bytes) returns (r: Option<seq<BedrockModelBinding>>)
    ensures r.Some? <==> CliAccepts(value, network)
    ensures r.Some? ==> r.value == SortByModel(CliRows(CliEnvelope(value, network).value))
  {
    var envelope := CliEnvelope(value, network);
    if envelope.None? {
      return None;
    }
    var (revision, rows) := envelope.value;
    var bindings: seq<BedrockModelBinding> := [];
    var models: set<Bytes> := {};
    var i := 0;
    while i < |rows|
      invariant i == |bindings| <= |rows|
      invariant forall k :: 0 <= k < i ==> CliRow(rows[k], revision) == Some(bindings[k])
      invariant DistinctCli(bindings)
      invariant forall m :: m in models <==> exists k :: 0 <= k < i && bindings[k].model == m
    {
      var row := CliRow(rows[i], revision);
      if row.None? {
        return None;
      }
      if row.value.model in models {
        CliDuplicateRefused(rows, revision, bindings, i);
        return None;
      }
      models := models + {row.value.model};
      bindings := bindings + [row.value];
      i := i + 1;
    }
    assert CliRows(envelope.value) == bindings;
    return Some(SortByModel(bindings));
  }

  // ----- agreement

  lemma {:induction false} DistinctKeyCount(keys: seq<Bytes>)
    requires forall i, j :: 0 <= i < j < |keys| ==> keys[i] != keys[j]
    ensures |set k | k in keys| == |keys|
    decreases |keys|
  {
    if keys != [] {
      var before, last := keys[..|keys| - 1], keys[|keys| - 1];
      DistinctKeyCount(before);
      assert keys == before + [last];
      assert (set k | k in keys) == (set k | k in before) + {last};
      assert last !in before;
    }
  }

  lemma SubsetOfSameSize(a: set<Bytes>, b: set<Bytes>)
    requires a <= b && |a| == |b|
    ensures a == b
  {
    assert b == a + (b - a);
    assert |b| == |a| + |b - a|;
  }

  /** The two key tests coincide for every list of distinct keys. */
  lemma KeyTestsCoincide(fields: map<Bytes, Value>, keys: seq<Bytes>)
    requires forall i, j :: 0 <= i < j < |keys| ==> keys[i] != keys[j]
    ensures HasOnlyKeys(fields, keys) <==> HasExactKeys(fields, keys)
  {
    var names := set k | k in keys;
    DistinctKeyCount(keys);
    if HasOnlyKeys(fields, keys) {
      assert fields.Keys == names;
    }
    if HasExactKeys(fields, keys) {
      assert names <= fields.Keys && |fields.Keys| == |fields|;
      SubsetOfSameSize(names, fields.Keys);
      assert forall k :: k in fields ==> k in names;
    }
  }

  lemma KeysAreDistinct()
    ensures forall i, j :: 0 <= i < j < |ENVELOPE_KEYS| ==> ENVELOPE_KEYS[i] != ENVELOPE_KEYS[j]
    ensures forall i, j :: 0 <= i < j < |ROW_KEYS| ==> ROW_KEYS[i] != ROW_KEYS[j]
  {
    assert REVISION[0] == 'r' as int && BINDINGS[0] == 'b' as int && PROVIDER[0] == 'p' as int;
    assert UPSTREAM_MODEL[0] == 'u' as int && RESPONSE_MODEL[0] == 'r' as int;
    assert |SCHEMA_VERSION| == 14 && |NETWORK| == 7 && |REVISION| == 8 && |BINDINGS| == 8;
    assert |PROVIDER| == 8 && |MODEL| == 5 && |UPSTREAM_MODEL| == 14 && |RESPONSE_MODEL| == 14;
  }

  function Project(row: ModelBinding): BedrockModelBinding {
    BedrockModelBinding(row.model, row.upstreamModel, row.responseModel, row.revision)
  }

  lemma RowsAgree(row: Value, revision: nat)
    ensures AdapterRow(row, revision).Some? == CliRow(row, revision).Some?
    ensures AdapterRow(row, revision).Some? ==> CliRow(row, revision).value == Project(AdapterRow(row, revision).value)
  {
    KeysAreDistinct();
    if row.Object? {
      KeyTestsCoincide(row.fields, ROW_KEYS);
    }
    hide HasOnlyKeys, HasExactKeys, ValidModelId, ValidBedrockSelector;
  }

  lemma EnvelopesAgree(value: Value, network: Bytes)
    ensures AdapterEnvelope(value, network) == CliEnvelope(value, network)
  {
    KeysAreDistinct();
    if value.Object? {
      KeyTestsCoincide(value.fields, ENVELOPE_KEYS);
    }
    hide HasOnlyKeys, HasExactKeys;
  }

  /** The rows of a map in ascending order of their model: the order in which an ordered map lists them. */
  ghost predicate ListsInOrder(bindings: map<Bytes, ModelBinding>, rows: seq<BedrockModelBinding>) {
    && Ascending(rows)
    && (forall i :: 0 <= i < |rows| ==>
          rows[i].model in bindings && rows[i] == Project(bindings[rows[i].model]))
    && (forall m :: m in bindings ==> exists i :: 0 <= i < |rows| && rows[i].model == m)
  }

  /** There is one such list, so it fixes the order as well as the rows. */
  lemma {:induction false} OneListInOrder(bindings: map<Bytes, ModelBinding>,
                                          a: seq<BedrockModelBinding>, b: seq<BedrockModelBinding>, n: nat)
    requires ListsInOrder(bindings, a) && ListsInOrder(bindings, b)
    requires n <= |a| && n <= |b| && a[..n] == b[..n]
    ensures a == b
    decreases |a| - n
  {
    hide ListsInOrder, LexLess;
    if n < |a| {
      FollowedBySame(bindings, a, b, n);
      FollowedBySame(bindings, b, a, n);
      LexTotalStrict(a[n].model, b[n].model);
      assert a[..n + 1] == a[..n] + [a[n]] && b[..n + 1] == b[..n] + [b[n]];
      OneListInOrder(bindings, a, b, n + 1);
    } else if n < |b| {
      FollowedBySame(bindings, b, a, n);
    }
  }

  lemma LexTotalStrict(a: Bytes, b: Bytes)
    ensures !(LexLess(a, b) && LexLess(b, a))
  {
    if LexLess(a, b) && LexLess(b, a) {
      LexTransitive(a, b, a);
      LexIrreflexive(a);
    }
  }

  /** After a common prefix, the other list goes on, with a model not above this one's next. */
  lemma FollowedBySame(bindings: map<Bytes, ModelBinding>,
                       a: seq<BedrockModelBinding>, b: seq<BedrockModelBinding>, n: nat)
    requires ListsInOrder(bindings, a) && ListsInOrder(bindings, b)
    requires n < |a| && n <= |b| && a[..n] == b[..n]
    ensures n < |b| && (b[n].model == a[n].model || LexLess(b[n].model, a[n].model))
    ensures b[n].model == a[n].model ==> a[n] == b[n]
  {
    hide LexLess;
    var m := a[n].model;
    assert m in bindings;
    var i :| 0 <= i < |b| && b[i].model == m;
    if i < n {
      assert b[i] == b[..n][i] == a[i];
      LexIrreflexive(m);
      assert false;
    }
  }

  lemma DistinctAgree(rows: seq<ModelBinding>, cli: seq<BedrockModelBinding>)
    requires |rows| == |cli| && forall k :: 0 <= k < |rows| ==> cli[k] == Project(rows[k])
    ensures DistinctModels(rows) <==> DistinctCli(cli)
  {
    assert forall k :: 0 <= k < |rows| ==> cli[k].model == rows[k].model;
  }

  lemma SortedListsTheMap(rows: seq<ModelBinding>, cli: seq<BedrockModelBinding>)
    requires |rows| == |cli| && forall k :: 0 <= k < |rows| ==> cli[k] == Project(rows[k])
    requires DistinctModels(rows) && DistinctCli(cli)
    ensures ListsInOrder(RowsByModel(rows), SortByModel(cli))
  {
    hide SortByModel, RowsByModel;
    SortOrders(cli);
    RowsByModelDomain(rows);
    var sorted, bindings := SortByModel(cli), RowsByModel(rows);
    forall i | 0 <= i < |sorted|
      ensures sorted[i].model in bindings && sorted[i] == Project(bindings[sorted[i].model])
    {
      assert sorted[i] in multiset(sorted);
      var k :| 0 <= k < |cli| && cli[k] == sorted[i];
    }
    forall m | m in bindings
      ensures exists i :: 0 <= i < |sorted| && sorted[i].model == m
    {
      var k :| 0 <= k < |rows| && rows[k].model == m;
      assert cli[k] in multiset(cli);
      var i :| 0 <= i < |sorted| && sorted[i] == cli[k];
    }
  }

  /**
   The adapter and the command line accept exactly the same values for the same network, and the
   command line lists exactly the adapter's rows, in the order of the adapter's ordered map.
   */
  lemma ValidatorsAgree(value: Value, network: Bytes)
    ensures ValidPayload(value, network) <==> CliAccepts(value, network)
    ensures ValidPayload(value, network) ==>
              ListsInOrder(RowsByModel(AdapterRows(AdapterEnvelope(value, network).value)),
                           SortByModel(CliRows(CliEnvelope(value, network).value)))
  {
    hide AdapterRow, CliRow, SortByModel, RowsByModel, AdapterEnvelope, CliEnvelope, DistinctModels, DistinctCli;
    EnvelopesAgree(value, network);
    var envelope := AdapterEnvelope(value, network);
    if envelope.Some? {
      forall k | 0 <= k < |envelope.value.1|
        ensures AdapterRow(envelope.value.1[k], envelope.value.0).Some? ==
                CliRow(envelope.value.1[k], envelope.value.0).Some?
      {
        RowsAgree(envelope.value.1[k], envelope.value.0);
      }
      if forall k :: 0 <= k < |envelope.value.1| ==> AdapterRow(envelope.value.1[k], envelope.value.0).Some? {
        var rows, cli := AdapterRows(envelope.value), CliRows(envelope.value);
        forall k | 0 <= k < |rows|
          ensures cli[k] == Project(rows[k])
        {
          RowsAgree(envelope.value.1[k], envelope.value.0);
        }
        DistinctAgree(rows, cli);
        if DistinctModels(rows) {
          SortedListsTheMap(rows, cli);
        }
      }
    }
  }

  /** Every accepted row revision lies between 1 and the snapshot revision. */
  lemma AcceptedRevisionsInRange(value: Value, network: Bytes, k: nat)
    requires ValidPayload(value, network)
    requires k < |AdapterRows(AdapterEnvelope(value, network).value)|
    ensures var envelope := AdapterEnvelope(value, network).value;
            1 <= AdapterRows(envelope)[k].revision <= envelope.0 <= MAX_SAFE_INTEGER
  {
    var envelope := AdapterEnvelope(value, network).value;
    assert AdapterRow(envelope.1[k], envelope.0) == Some(AdapterRows(envelope)[k]);
  }
}
