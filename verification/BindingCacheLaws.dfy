/**
 The binding cache seen from outside: which offers a run accepts and how it answers, said in terms
 of the offers it accepted before and of nothing that the cache keeps.
 */
module BindingCacheLaws {
  import opened Common
  import opened BindingCache

  /** What an offered row must be, given all rows accepted for its model and the last accepted snapshot. */
  ghost predicate RowPasses(events: seq<Event>, i: nat, j: nat, m: Bytes)
    requires i < j < |events| && events[i].Offer? && events[j].Offer? && m in events[j].snapshot.bindings
  {
    var row := events[j].snapshot.bindings[m];
    || (forall h :: 0 <= h < j && AcceptedRow(events, h, m) ==>
          events[h].snapshot.bindings[m].revision < row.revision)
    || (m in events[i].snapshot.bindings && events[i].snapshot.bindings[m] == row)
  }

  /** The offer repeats the last accepted snapshot, or is above it in revision with every row passing. */
  ghost predicate Continues(events: seq<Event>, i: nat, j: nat)
    requires i < j < |events| && events[i].Offer? && events[j].Offer?
  {
    || events[j].snapshot == events[i].snapshot
    || (&& events[i].snapshot.revision < events[j].snapshot.revision
        && forall m :: m in events[j].snapshot.bindings ==> RowPasses(events, i, j, m))
  }

  /** The highest row of a model is one that was accepted, and no accepted one is above it. */
  lemma {:induction false} HighestIsAccepted(events: seq<Event>, j: nat, m: Bytes)
    requires j <= |events|
    ensures m in After(events[..j]).highest <==> exists h :: h < j && AcceptedRow(events, h, m)
    ensures m in After(events[..j]).highest ==>
              exists h :: h < j && AcceptedRow(events, h, m)
                          && events[h].snapshot.bindings[m] == After(events[..j]).highest[m]
    decreases j
  {
    if j > 0 {
      HighestIsAccepted(events, j - 1, m);
      assert events[..j][..j - 1] == events[..j - 1] && events[..j][j - 1] == events[j - 1];
      if Accepted(events, j - 1) {
        JustAccepted(events, j - 1);
        hide After;
        if m in events[j - 1].snapshot.bindings {
          assert AcceptedRow(events, j - 1, m);
        } else {
          assert After(events[..j]) == Applied(After(events[..j - 1]), events[j - 1].snapshot, events[j - 1].now) by {
            AcceptedApplies(events, j - 1);
          }
        }
      } else {
        RefusalChangesNothing(events, j - 1);
        hide After;
      }
    }
  }

  lemma AcceptedApplies(events: seq<Event>, i: nat)
    requires Accepted(events, i)
    ensures After(events[..i + 1]) == Applied(After(events[..i]), events[i].snapshot, events[i].now)
  {
    assert events[..i + 1][..i] == events[..i] && events[..i + 1][i] == events[i];
  }

  lemma NoneAbove(events: seq<Event>, h: nat, j: nat, m: Bytes)
    requires h < j <= |events| && AcceptedRow(events, h, m)
    ensures m in After(events[..j]).highest
    ensures events[h].snapshot.bindings[m].revision <= After(events[..j]).highest[m].revision
  {
    hide After, Accepts;
    JustAccepted(events, h);
    RunFollows(events, h + 1, j);
  }

  /** The row rule of the cache is the row rule of the run. */
  lemma RowRule(events: seq<Event>, i: nat, j: nat, m: Bytes)
    requires LastAccepted(events, i, j) && j < |events| && events[j].Offer? && m in events[j].snapshot.bindings
    ensures var s := After(events[..j]);
            && s.current.Some?
            && (RowPasses(events, i, j, m) <==>
                (m in s.highest ==>
                   RowVerdict(events[j].snapshot.bindings[m], s.highest[m],
                       m in s.current.value.snapshot.bindings).None?))
  {
    var s := After(events[..j]);
    LastIsCurrent(events, i, j);
    AlwaysCoherent(events[..j]);
    HighestIsAccepted(events, j, m);
    hide After, Accepts;
    assert Current(s, m) <==> m in events[i].snapshot.bindings;
    var row := events[j].snapshot.bindings[m];
    if m in s.highest {
      var top: nat :| top < j && AcceptedRow(events, top, m) && events[top].snapshot.bindings[m] == s.highest[m];
      forall h | 0 <= h < j && AcceptedRow(events, h, m)
        ensures events[h].snapshot.bindings[m].revision <= s.highest[m].revision
      {
        NoneAbove(events, h, j, m);
      }
    }
  }

  lemma LastIsCurrent(events: seq<Event>, i: nat, j: nat)
    requires LastAccepted(events, i, j) && j <= |events|
    ensures After(events[..j]).current == Some(CachedBindings(events[i].snapshot, events[i].now))
  {
    hide After, Accepts;
    JustAccepted(events, i);
    RunFollows(events, i + 1, j);
    var k := CurrentIsLastAccepted(events, j);
    assert k == i;
  }

  /** An offer is accepted exactly if it is the first, or continues the last accepted one. */
  lemma AcceptedIff(events: seq<Event>, j: nat)
    requires j < |events| && events[j].Offer?
    ensures Accepted(events, j) <==>
            || (forall h :: 0 <= h < j ==> !Accepted(events, h))
            || exists i :: 0 <= i < j && LastAccepted(events, i, j) && Continues(events, i, j)
  {
    var s := After(events[..j]);
    if s.current.None? {
      forall h | 0 <= h < j
        ensures !Accepted(events, h)
      {
        if Accepted(events, h) {
          hide After, Accepts;
          JustAccepted(events, h);
          RunFollows(events, h + 1, j);
          assert false;
        }
      }
    } else {
      var i := CurrentIsLastAccepted(events, j);
      ContinuesIff(events, i, j);
      assert forall h :: 0 <= h < j && LastAccepted(events, h, j) ==> h == i;
    }
  }

  lemma ContinuesIff(events: seq<Event>, i: nat, j: nat)
    requires LastAccepted(events, i, j) && j < |events| && events[j].Offer?
    ensures Accepted(events, j) <==> Continues(events, i, j)
  {
    var s := After(events[..j]);
    LastIsCurrent(events, i, j);
    hide After, RowPasses, RowVerdict;
    forall m | m in events[j].snapshot.bindings
      ensures RowPasses(events, i, j, m) <==>
              (m in s.highest ==>
                 RowVerdict(events[j].snapshot.bindings[m], s.highest[m], m in s.current.value.snapshot.bindings).None?)
    {
      RowRule(events, i, j, m);
    }
  }

  // ----- the answers

  /** The answer to the lookup at position j of a run. */
  function AnswerAt(events: seq<Event>, j: nat): Lookup
    requires j < |events| && events[j].Ask?
  {
    CurrentBinding(After(events[..j]), events[j].model, events[j].expected, events[j].now)
  }

  lemma NothingToAnswerFrom(events: seq<Event>, j: nat)
    requires j < |events| && events[j].Ask? && forall h :: 0 <= h < j ==> !Accepted(events, h)
    ensures AnswerAt(events, j) == Refresh(BindingsUnavailable)
  {
    if After(events[..j]).current.Some? {
      var i := CurrentIsLastAccepted(events, j);
      assert false;
    }
  }

  /**
   Each answer is given exactly in its own case, with i the last accepted offer. A lookup of one of
   its rows at that row's revision, at most fifteen minutes after it was confirmed, is ready.
   */
  lemma AnswerIs(events: seq<Event>, i: nat, j: nat, row: ModelBinding)
    requires j < |events| && events[j].Ask? && LastAccepted(events, i, j)
    ensures var rows, m, rev := events[i].snapshot.bindings, events[j].model, events[j].expected;
            var stale := events[j].now - events[i].now > 15 * 60 * 1_000_000_000;
            var behind := m in rows && rev < rows[m].revision;
            var answer := AnswerAt(events, j);
            && (answer == Ready(row) <==> m in rows && rows[m] == row && rev == row.revision && !stale)
            && (answer == Behind <==> behind)
            && (answer == Refresh(UnsupportedModel) <==> m !in rows && !stale)
            && (answer == Refresh(BindingRevision) <==> m in rows && rows[m].revision < rev && !stale)
            && (answer == Refresh(BindingsUnavailable) <==> stale && !behind)
  {
    LastIsCurrent(events, i, j);
    hide After;
  }
}
