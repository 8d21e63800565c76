/**
 The adapter's cache of approved model bindings: a snapshot is taken over only if it rolls
 nothing back and brings no removed model back without a new row revision.
 */
module BindingCache {
  import opened Common

  /** Fifteen minutes, in nanoseconds. */
  const FRESHNESS_TTL: nat := 15 * 60 * 1_000_000_000

  datatype ModelBinding = ModelBinding(
    provider: Bytes, model: Bytes, upstreamModel: Bytes, responseModel: Bytes, revision: nat)

  datatype Snapshot = Snapshot(network: Bytes, revision: nat, bindings: map<Bytes, ModelBinding>)

  datatype CachedBindings = CachedBindings(snapshot: Snapshot, fetchedAt: nat)

  /** The cache's two fields. `highest` is kept across removals. */
  datatype State = State(current: Option<CachedBindings>, highest: map<Bytes, ModelBinding>)

  const EMPTY := State(None, map[])

  datatype ApplyError =
    | SnapshotMovedBack
    | PayloadChanged
    | RowMovedBack
    | RowChanged
    | RowReadded

  /** The check of one new row against the highest row ever accepted for its model. */
  function RowVerdict(next: ModelBinding, previous: ModelBinding, present: bool): Option<ApplyError> {
    if next.revision < previous.revision then Some(RowMovedBack)
    else if next.revision == previous.revision && next != previous then Some(RowChanged)
    else if !present && next.revision <= previous.revision then Some(RowReadded)
    else None
  }

  predicate RowsPass(s: State, snapshot: Snapshot)
    requires s.current.Some?
  {
    forall m :: m in s.highest && m in snapshot.bindings ==>
      RowVerdict(snapshot.bindings[m], s.highest[m], m in s.current.value.snapshot.bindings).None?
  }

  predicate Accepts(s: State, snapshot: Snapshot) {
    s.current.Some? ==>
      var current := s.current.value.snapshot;
      && current.revision <= snapshot.revision
      && (current.revision == snapshot.revision ==> snapshot == current)
      && (current.revision < snapshot.revision ==> RowsPass(s, snapshot))
  }

  function Applied(s: State, snapshot: Snapshot, now: nat): State {
    var cached := Some(CachedBindings(snapshot, now));
    if s.current.Some? && s.current.value.snapshot.revision == snapshot.revision then State(cached, s.highest)
    else State(cached, s.highest + snapshot.bindings)
  }

  datatype LookupReject = BindingsUnavailable | UnsupportedModel | BindingRevision

  datatype Lookup = Ready(binding: ModelBinding) | Behind | Refresh(reject: LookupReject)

  /** The answer to a lookup: behind is final and needs no fresh snapshot, everything else does. */
  function CurrentBinding(s: State, model: Bytes, expected: nat, now: nat): Lookup {
    if s.current.None? then Refresh(BindingsUnavailable)
    else
      var cached := s.current.value;
      var rows := cached.snapshot.bindings;
      if model in rows && expected < rows[model].revision then Behind
      else if now > cached.fetchedAt + FRESHNESS_TTL then Refresh(BindingsUnavailable)
      else if model !in rows then Refresh(UnsupportedModel)
      else if rows[model].revision != expected then Refresh(BindingRevision)
      else Ready(rows[model])
  }

  class BindingCache {
    var current: Option<CachedBindings>
    var highest: map<Bytes, ModelBinding>

    ghost function Fields(): State
      reads this
    {
      State(current, highest)
    }

    constructor ()
      ensures Fields() == EMPTY
    {
      current, highest := None, map[];
    }

    /** `apply`: a refused snapshot leaves the cache as it was. */
    method Apply(snapshot: Snapshot, now: nat) returns (r: Result<(), ApplyError>)
      modifies this
      ensures r.Ok? <==> Accepts(old(Fields()), snapshot)
      ensures Fields() == if r.Ok? then Applied(old(Fields()), snapshot, now) else old(Fields())
      ensures r == Err(SnapshotMovedBack) <==>
              old(current).Some? && snapshot.revision < old(current).value.snapshot.revision
      ensures r == Err(PayloadChanged) <==>
              && old(current).Some? && snapshot.revision == old(current).value.snapshot.revision
              && snapshot != old(current).value.snapshot
      ensures r == Err(RowMovedBack) ==>
                exists m :: m in old(highest) && m in snapshot.bindings
                            && snapshot.bindings[m].revision < old(highest)[m].revision
      ensures r == Err(RowChanged) ==>
                exists m :: m in old(highest) && m in snapshot.bindings && snapshot.bindings[m] != old(highest)[m]
                            && snapshot.bindings[m].revision == old(highest)[m].revision
      ensures r == Err(RowReadded) ==>
                exists m :: m in old(highest) && m in snapshot.bindings && snapshot.bindings[m] == old(highest)[m]
                            && m !in old(current).value.snapshot.bindings
    {
      if current.Some? {
        var known := current.value.snapshot;
        if snapshot.revision < known.revision {
          return Err(SnapshotMovedBack);
        }
        if snapshot.revision == known.revision {
          if snapshot != known {
            return Err(PayloadChanged);
          }
          current := Some(CachedBindings(snapshot, now));
          return Ok(());
        }
        var models := highest.Keys;
        while models != {}
          invariant models <= highest.Keys
          invariant forall m :: m in highest && m !in models && m in snapshot.bindings ==>
                      RowVerdict(snapshot.bindings[m], highest[m], m in known.bindings).None?
          decreases |models|
        {
          var m :| m in models;
          models := models - {m};
          if m in snapshot.bindings {
            var refused := RowVerdict(snapshot.bindings[m], highest[m], m in known.bindings);
            if refused.Some? {
              return Err(refused.value);
            }
          }
        }
      }
      highest := highest + snapshot.bindings;
      current := Some(CachedBindings(snapshot, now));
      return Ok(());
    }

    /** `current_binding`, with its early returns. */
    method Find(model: Bytes, expected: nat, now: nat) returns (r: Lookup)
      ensures r == CurrentBinding(Fields(), model, expected, now)
    {
      if current.None? {
        return Refresh(BindingsUnavailable);
      }
      var cached := current.value;
      var binding := if model in cached.snapshot.bindings then Some(cached.snapshot.bindings[model]) else None;
      if binding.Some? && expected < binding.value.revision {
        return Behind;
      }
      var age := if now < cached.fetchedAt then 0 else now - cached.fetchedAt;
      if age > FRESHNESS_TTL {
        return Refresh(BindingsUnavailable);
      }
      if binding.None? {
        return Refresh(UnsupportedModel);
      }
      if binding.value.revision != expected {
        return Refresh(BindingRevision);
      }
      return Ready(binding.value);
    }
  }

  // ----- runs

  /** An interleaving of offered snapshots and lookups, each with the instant it happens. */
  datatype Event =
    | Offer(snapshot: Snapshot, now: nat)
    | Ask(model: Bytes, expected: nat, now: nat)

  function Next(s: State, e: Event): State {
    if e.Offer? && Accepts(s, e.snapshot) then Applied(s, e.snapshot, e.now) else s
  }

  function After(events: seq<Event>): State {
    if events == [] then EMPTY else Next(After(events[..|events| - 1]), events[|events| - 1])
  }

  /** The snapshot offered at position i was taken over. */
  ghost predicate Accepted(events: seq<Event>, i: int) {
    0 <= i < |events| && events[i].Offer? && Accepts(After(events[..i]), events[i].snapshot)
  }

  ghost predicate AcceptedRow(events: seq<Event>, i: int, m: Bytes) {
    Accepted(events, i) && m in events[i].snapshot.bindings
  }

  /** The lookup at position i was answered with this row. */
  ghost predicate AnsweredReady(events: seq<Event>, i: int, m: Bytes, rev: nat, row: ModelBinding) {
    && 0 <= i < |events| && events[i].Ask? && events[i].model == m && events[i].expected == rev
    && CurrentBinding(After(events[..i]), m, rev, events[i].now) == Ready(row)
  }

  ghost predicate AnsweredBehind(events: seq<Event>, i: int, m: Bytes, rev: nat) {
    && 0 <= i < |events| && events[i].Ask? && events[i].model == m && events[i].expected == rev
    && CurrentBinding(After(events[..i]), m, rev, events[i].now) == Behind
  }

  predicate Current(s: State, m: Bytes) {
    s.current.Some? && m in s.current.value.snapshot.bindings
  }

  /** Every current row is the highest row ever accepted for its model. */
  ghost predicate Coherent(s: State) {
    && (s.current.None? ==> s.highest == map[])
    && forall m :: Current(s, m) ==> m in s.highest && s.highest[m] == s.current.value.snapshot.bindings[m]
  }

  /** How a later cache relates to an earlier one. */
  ghost predicate Follows(s: State, t: State) {
    && (s.current.Some? ==> t.current.Some? && s.current.value.snapshot.revision <= t.current.value.snapshot.revision)
    && forall m :: m in s.highest ==>
         && m in t.highest
         && s.highest[m].revision <= t.highest[m].revision
         && (s.highest[m].revision == t.highest[m].revision ==>
               s.highest[m] == t.highest[m] && (!Current(s, m) ==> !Current(t, m)))
  }

  lemma StepFollows(s: State, e: Event)
    requires Coherent(s)
    ensures Coherent(Next(s, e)) && Follows(s, Next(s, e))
  {
  }

  lemma FollowsTransitive(s: State, t: State, u: State)
    requires Follows(s, t) && Follows(t, u)
    ensures Follows(s, u)
  {
    forall m | m in s.highest
      ensures m in u.highest && s.highest[m].revision <= u.highest[m].revision
      ensures s.highest[m].revision == u.highest[m].revision ==>
                s.highest[m] == u.highest[m] && (!Current(s, m) ==> !Current(u, m))
    {
      assert m in t.highest;
    }
  }

  lemma {:induction false} AlwaysCoherent(events: seq<Event>)
    ensures Coherent(After(events))
    decreases |events|
  {
    if events != [] {
      var before := events[..|events| - 1];
      AlwaysCoherent(before);
      StepFollows(After(before), events[|events| - 1]);
    }
  }

  /** The cache after any prefix of a run is followed by the cache after any longer prefix. */
  lemma {:induction false} RunFollows(events: seq<Event>, i: nat, j: nat)
    requires i <= j <= |events|
    ensures Follows(After(events[..i]), After(events[..j]))
    decreases j
  {
    if i < j {
      RunFollows(events, i, j - 1);
      assert events[..j][..j - 1] == events[..j - 1] && events[..j][j - 1] == events[j - 1];
      AlwaysCoherent(events[..j - 1]);
      StepFollows(After(events[..j - 1]), events[j - 1]);
      FollowsTransitive(After(events[..i]), After(events[..j - 1]), After(events[..j]));
    }
  }

  /** Directly after an accepted snapshot, that snapshot is current and its rows are the highest. */
  lemma JustAccepted(events: seq<Event>, i: nat)
    requires Accepted(events, i)
    ensures var s := After(events[..i + 1]);
            && s.current == Some(CachedBindings(events[i].snapshot, events[i].now))
            && forall m :: m in events[i].snapshot.bindings ==>
                 m in s.highest && s.highest[m] == events[i].snapshot.bindings[m]
  {
    assert events[..i + 1][..i] == events[..i] && events[..i + 1][i] == events[i];
    AlwaysCoherent(events[..i + 1]);
    var s := After(events[..i + 1]);
    forall m | m in events[i].snapshot.bindings
      ensures m in s.highest && s.highest[m] == events[i].snapshot.bindings[m]
    {
      assert Current(s, m);
    }
  }

  /** Accepted snapshot revisions never fall, and an equal revision means an equal snapshot. */
  lemma {:induction false} SnapshotsNeverRollBack(events: seq<Event>, i: nat, j: nat)
    requires i < j && Accepted(events, i) && Accepted(events, j)
    ensures events[i].snapshot.revision <= events[j].snapshot.revision
    ensures events[i].snapshot.revision == events[j].snapshot.revision ==> events[i].snapshot == events[j].snapshot
    decreases j
  {
    JustAccepted(events, i);
    RunFollows(events, i + 1, j);
    var s := After(events[..j]);
    if events[i].snapshot.revision == events[j].snapshot.revision {
      SameRevisionSameSnapshot(events, i, j);
    }
  }

  /** While the snapshot revision stands still, so does the snapshot. */
  lemma {:induction false} SameRevisionSameSnapshot(events: seq<Event>, i: nat, j: nat)
    requires i < j <= |events| && Accepted(events, i)
    requires After(events[..j]).current.Some?
    requires After(events[..j]).current.value.snapshot.revision == events[i].snapshot.revision
    ensures After(events[..j]).current.value.snapshot == events[i].snapshot
    decreases j
  {
    JustAccepted(events, i);
    if i + 1 < j {
      RunFollows(events, i + 1, j - 1);
      RunFollows(events, j - 1, j);
      SameRevisionSameSnapshot(events, i, j - 1);
      assert events[..j][..j - 1] == events[..j - 1] && events[..j][j - 1] == events[j - 1];
    }
  }

  /** A model's row revision never falls, even across removals. */
  lemma RowsNeverRollBack(events: seq<Event>, i: nat, j: nat, m: Bytes)
    requires i < j && AcceptedRow(events, i, m) && AcceptedRow(events, j, m)
    ensures events[i].snapshot.bindings[m].revision <= events[j].snapshot.bindings[m].revision
  {
    JustAccepted(events, i);
    JustAccepted(events, j);
    RunFollows(events, i + 1, j + 1);
  }

  /**
   The same model at the same row revision is the same row, and no snapshot accepted in between
   lacked the model: a removed row is never resurrected under its old revision.
   */
  lemma SameRevisionSameRow(events: seq<Event>, i: nat, j: nat, m: Bytes)
    requires i < j && AcceptedRow(events, i, m) && AcceptedRow(events, j, m)
    requires events[i].snapshot.bindings[m].revision == events[j].snapshot.bindings[m].revision
    ensures events[i].snapshot.bindings[m] == events[j].snapshot.bindings[m]
    ensures forall k :: i < k < j && Accepted(events, k) ==> m in events[k].snapshot.bindings
  {
    hide After, Accepts;
    JustAccepted(events, i);
    JustAccepted(events, j);
    RunFollows(events, i + 1, j + 1);
    forall k | i < k < j && Accepted(events, k)
      ensures m in events[k].snapshot.bindings
    {
      NoGap(events, i, k, j, m);
    }
  }

  lemma NoGap(events: seq<Event>, i: nat, k: nat, j: nat, m: Bytes)
    requires i < k < j && AcceptedRow(events, i, m) && Accepted(events, k) && AcceptedRow(events, j, m)
    requires events[i].snapshot.bindings[m].revision == events[j].snapshot.bindings[m].revision
    ensures m in events[k].snapshot.bindings
  {
    hide After, Accepts;
    JustAccepted(events, i);
    JustAccepted(events, k);
    JustAccepted(events, j);
    RunFollows(events, i + 1, k + 1);
    RunFollows(events, k + 1, j + 1);
    assert Current(After(events[..j + 1]), m);
  }

  /** A refused snapshot, and any lookup, changes nothing. */
  lemma RefusalChangesNothing(events: seq<Event>, i: nat)
    requires i < |events| && !Accepted(events, i)
    ensures After(events[..i + 1]) == After(events[..i])
  {
    assert events[..i + 1][..i] == events[..i] && events[..i + 1][i] == events[i];
  }

  lemma ReadyIsHighest(events: seq<Event>, i: nat, m: Bytes, rev: nat, row: ModelBinding)
    requires AnsweredReady(events, i, m, rev, row)
    ensures var s := After(events[..i]);
            Current(s, m) && m in s.highest && s.highest[m] == row && row.revision == rev
  {
    AlwaysCoherent(events[..i]);
    assert Current(After(events[..i]), m);
  }

  /** All Ready answers for one (model, revision) return the same row. */
  lemma ReadyAnswersAgree(events: seq<Event>, i: nat, j: nat, m: Bytes, rev: nat,
                          first: ModelBinding, second: ModelBinding)
    requires i <= j && AnsweredReady(events, i, m, rev, first) && AnsweredReady(events, j, m, rev, second)
    ensures first == second
  {
    ReadyIsHighest(events, i, m, rev, first);
    ReadyIsHighest(events, j, m, rev, second);
    RunFollows(events, i, j);
  }

  /** A Behind answer is final: that revision is never answered Ready again. */
  lemma BehindIsFinal(events: seq<Event>, i: nat, j: nat, m: Bytes, rev: nat, row: ModelBinding)
    requires i < j && AnsweredBehind(events, i, m, rev)
    ensures !AnsweredReady(events, j, m, rev, row)
  {
    AlwaysCoherent(events[..i]);
    assert Current(After(events[..i]), m);
    if AnsweredReady(events, j, m, rev, row) {
      ReadyIsHighest(events, j, m, rev, row);
      RunFollows(events, i, j);
      assert false;
    }
  }

  /** No Ready answer follows an accepted snapshot that raised the model's row above it. */
  lemma NoReadyAfterRaise(events: seq<Event>, i: nat, j: nat, m: Bytes, rev: nat, row: ModelBinding)
    requires i < j && AcceptedRow(events, i, m) && rev < events[i].snapshot.bindings[m].revision
    ensures !AnsweredReady(events, j, m, rev, row)
  {
    JustAccepted(events, i);
    if AnsweredReady(events, j, m, rev, row) {
      ReadyIsHighest(events, j, m, rev, row);
      RunFollows(events, i + 1, j);
      assert false;
    }
  }

  /** No Ready answer follows an accepted snapshot that dropped a model known at that revision. */
  lemma NoReadyAfterDrop(events: seq<Event>, h: nat, i: nat, j: nat, m: Bytes, rev: nat, row: ModelBinding)
    requires h < i < j && AcceptedRow(events, h, m) && rev <= events[h].snapshot.bindings[m].revision
    requires Accepted(events, i) && m !in events[i].snapshot.bindings
    ensures !AnsweredReady(events, j, m, rev, row)
  {
    JustAccepted(events, h);
    JustAccepted(events, i);
    RunFollows(events, h + 1, i + 1);
    if AnsweredReady(events, j, m, rev, row) {
      ReadyIsHighest(events, j, m, rev, row);
      RunFollows(events, i + 1, j);
      assert false;
    }
  }

  /** The last accepted snapshot before a point of the run. */
  ghost predicate LastAccepted(events: seq<Event>, i: int, j: int) {
    0 <= i < j && Accepted(events, i) && forall k :: i < k < j ==> !Accepted(events, k)
  }

  /** The cache holds exactly the last accepted snapshot, stamped with the instant it was confirmed. */
  lemma {:induction false} CurrentIsLastAccepted(events: seq<Event>, j: nat) returns (i: nat)
    requires j <= |events| && After(events[..j]).current.Some?
    ensures LastAccepted(events, i, j)
    ensures After(events[..j]).current == Some(CachedBindings(events[i].snapshot, events[i].now))
    decreases j
  {
    assert events[..j] == [] <==> j == 0;
    if Accepted(events, j - 1) {
      JustAccepted(events, j - 1);
      i := j - 1;
    } else {
      RefusalChangesNothing(events, j - 1);
      i := CurrentIsLastAccepted(events, j - 1);
    }
  }

  /** A Ready answer rests on the last accepted snapshot, confirmed at most the TTL ago. */
  lemma ReadyIsFresh(events: seq<Event>, j: nat, m: Bytes, rev: nat, row: ModelBinding) returns (i: nat)
    requires AnsweredReady(events, j, m, rev, row)
    ensures LastAccepted(events, i, j)
    ensures m in events[i].snapshot.bindings && events[i].snapshot.bindings[m] == row
    ensures events[j].now <= events[i].now + FRESHNESS_TTL
  {
    i := CurrentIsLastAccepted(events, j);
  }
}
