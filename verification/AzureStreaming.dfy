/**
 The streaming check against its rule: a governed deployment is to be judged by the mode of the
 policy it names. Policies are fetched under the name as written and looked up under the trimmed
 name, so the two agree exactly when no policy name is padded.
 */
module AzureStreaming {
  import opened Common
  import opened SseEvents
  import opened AzureAudit
  import opened AzureRules
  import opened AzureSweep

  /** The rule: no policy at all, or the policy named was resolved to a mode that does not stream. */
  predicate BreaksRule(d: Item, modes: map<Bytes, Option<Bytes>>) {
    && Governed(d)
    && (PolicyName(d).None? || (PolicyName(d).value in modes && !AllowsStreaming(modes[PolicyName(d).value])))
  }

  /** The policies a complete sweep resolves. */
  ghost function NamedPolicies(items: seq<Item>): set<Bytes> {
    set d | d in items && Governed(d) && PolicyName(d).Some? :: PolicyName(d).value
  }

  ghost predicate CheckFires(items: seq<Item>, modes: map<Bytes, Option<Bytes>>) {
    exists d :: d in items && Judged(d, modes)
  }

  ghost predicate RuleBroken(items: seq<Item>, modes: map<Bytes, Option<Bytes>>) {
    exists d :: d in items && BreaksRule(d, modes)
  }

  /** Whatever modes the named policies turn out to have, the check fires exactly when the rule is broken. */
  ghost predicate CheckIsExact(items: seq<Item>) {
    forall modes: map<Bytes, Option<Bytes>> :: modes.Keys == NamedPolicies(items) ==>
      (CheckFires(items, modes) <==> RuleBroken(items, modes))
  }

  ghost predicate NoPaddedNames(items: seq<Item>) {
    forall d :: d in items && Governed(d) && PolicyName(d).Some? ==> Trim(PolicyName(d).value) == PolicyName(d).value
  }

  ghost predicate SomeUnnamed(items: seq<Item>) {
    exists d :: d in items && Governed(d) && PolicyName(d).None?
  }

  lemma SuffixHasNoTrailing(y: Bytes, k: nat)
    requires k <= |y| && TrailingWidth(y) == 0
    ensures TrailingWidth(y[k..]) == 0
  {
    hide WhitespaceWidth;
    var z := y[k..];
    if |z| >= 1 {
      SameEnd(y, k, 1);
    }
    if |z| >= 2 {
      SameEnd(y, k, 2);
    }
    if |z| >= 3 {
      SameEnd(y, k, 3);
    }
  }

  lemma SameEnd(y: Bytes, k: nat, n: nat)
    requires k + n <= |y|
    ensures y[k..][|y[k..]| - n..] == y[|y| - n..]
  {
  }

  lemma TrimTwice(b: Bytes)
    ensures Trim(Trim(b)) == Trim(b)
  {
    hide WhitespaceWidth, TrailingWidth;
    var y := TrimEnd(b);
    TrimEndCuts(b);
    TrimStartCuts(y);
    SuffixHasNoTrailing(y, |y| - |TrimStart(y)|);
    var z := Trim(b);
    assert TrimEnd(z) == z;
    assert TrimStart(z) == z;
  }

  /** All streaming except for one policy. */
  ghost function AllButOne(items: seq<Item>, bad: Bytes): map<Bytes, Option<Bytes>> {
    map name | name in NamedPolicies(items) :: if name == bad then None else Some(DEFERRED)
  }

  /** A padded name hides its policy's mode from the check. */
  lemma PaddedNameIsNotJudged(items: seq<Item>, d: Item)
    requires d in items && Governed(d) && PolicyName(d).Some? && Trim(PolicyName(d).value) != PolicyName(d).value
    requires !SomeUnnamed(items)
    ensures var modes := AllButOne(items, PolicyName(d).value); RuleBroken(items, modes) && !CheckFires(items, modes)
  {
    hide Trim;
    var bad := PolicyName(d).value;
    var modes := AllButOne(items, bad);
    assert bad in NamedPolicies(items);
    assert BreaksRule(d, modes);
    forall e | e in items
      ensures !Judged(e, modes)
    {
      if Governed(e) {
        assert PolicyName(e).Some?;
        TrimTwice(PolicyName(e).value);
      }
    }
  }

  /** The check is exact if and only if no governed deployment names its policy with padding (or one names none). */
  lemma CheckIsExactIff(items: seq<Item>)
    ensures CheckIsExact(items) <==> SomeUnnamed(items) || NoPaddedNames(items)
  {
    hide Trim;
    if SomeUnnamed(items) {
      var d :| d in items && Governed(d) && PolicyName(d).None?;
      forall modes: map<Bytes, Option<Bytes>>
        ensures CheckFires(items, modes) && RuleBroken(items, modes)
      {
        assert Judged(d, modes) && BreaksRule(d, modes);
      }
    } else if NoPaddedNames(items) {
      forall modes: map<Bytes, Option<Bytes>>
        ensures CheckFires(items, modes) <==> RuleBroken(items, modes)
      {
        assert forall d :: d in items ==> (Judged(d, modes) <==> BreaksRule(d, modes));
      }
    } else {
      var d :| d in items && Governed(d) && PolicyName(d).Some? && Trim(PolicyName(d).value) != PolicyName(d).value;
      PaddedNameIsNotJudged(items, d);
      assert AllButOne(items, PolicyName(d).value).Keys == NamedPolicies(items);
    }
  }

  lemma PaddedNameTrims()
    ensures Trim([0x20, 0x70]) == [0x70]
  {
    var padded: Bytes, bare: Bytes := [0x20, 0x70], [0x70];
    assert padded[1..] == bare && padded[0..] == padded;
    assert TrailingWidth(padded) == 0;
    assert TrimEnd(padded) == padded;
    assert WhitespaceWidth(padded) == 1 && WhitespaceWidth(bare) == 0;
    hide TrailingWidth, WhitespaceWidth;
    assert TrimStart(bare) == bare;
  }

  /** A concrete case: a deployment whose policy is named " p", resolved to a synchronous mode. */
  lemma PaddedExample()
    ensures var d := Item([0x64], None, None, Some([0x20, 0x70]));
            var modes := map[[0x20, 0x70] := None];
            BreaksRule(d, modes) && !Judged(d, modes)
  {
    hide Trim, Ascii;
    PaddedNameTrims();
    var padded: Bytes, bare: Bytes := [0x20, 0x70], [0x70];
    assert |padded| != |bare|;
  }
}
