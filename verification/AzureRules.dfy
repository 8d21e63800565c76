/**
 The rules that the Azure verifier enforces, in the fields of what the control plane answers and
 with every name written out: the reference that the verdicts are stated against.
 */
module AzureRules {
  import opened Common
  import opened SseEvents
  import opened AzureAudit
  import opened AzureRequests

  /** No model is called like the stand-in for a missing field. */
  predicate Sane(cfg: Config) {
    Ascii("<missing>") !in cfg.catalog && cfg.modelFormat != Ascii("<missing>")
  }

  /** A deployment named like a catalogue model that does not serve exactly that model in the right format. */
  predicate MisboundDeployment(cfg: Config, d: Item) {
    d.name in cfg.catalog && (d.format != Some(cfg.modelFormat) || d.model != Some(d.name))
  }

  /** A policy that is not named, or whose name is white space only. */
  predicate NoPolicy(d: Item) {
    d.raiPolicy.None? || Trim(d.raiPolicy.value) == []
  }

  predicate StreamingMode(mode: Option<Bytes>) {
    mode == Some(Ascii("Asynchronous_filter")) || mode == Some(Ascii("Deferred"))
  }

  /** A deployment under Azure's filter that has no policy, or one that was resolved and does not stream. */
  ghost predicate SynchronousDeployment(log: seq<Entry>, d: Item) {
    && d.format != Some(Ascii("Anthropic"))
    && (NoPolicy(d) ||
        exists mode :: Got(Policy(Trim(d.raiPolicy.value)), PolicyAnswer(mode)) in log && !StreamingMode(mode))
  }

  ghost predicate UnboundAccount(cfg: Config, log: seq<Entry>) {
    exists account :: Got(AccountRole, AccountAnswer(account)) in log && !cfg.bound(account)
  }

  ghost predicate CaptureSetting(log: seq<Entry>) {
    exists scope, count: nat :: Got(Settings(scope), SettingsAnswer(count)) in log && count > 0
  }

  ghost predicate CaptureChild(log: seq<Entry>) {
    exists scope, c, items, link ::
      Got(Children(scope, c), PageAnswer(items, link)) in log && (c.Connections? || c.CapabilityHosts?) && items != []
  }

  ghost predicate SomeMisbound(cfg: Config, log: seq<Entry>) {
    exists d :: ListedDeployment(log, d) && MisboundDeployment(cfg, d)
  }

  ghost predicate SomeSynchronous(log: seq<Entry>) {
    exists d :: ListedDeployment(log, d) && SynchronousDeployment(log, d)
  }

  /** Something that was read breaks a rule. */
  ghost predicate BreaksARule(cfg: Config, log: seq<Entry>) {
    || UnboundAccount(cfg, log)
    || CaptureSetting(log)
    || CaptureChild(log)
    || SomeMisbound(cfg, log)
    || (cfg.provider.OpenAi? && SomeSynchronous(log))
  }

  /** The binding test of the code says just that; outside the catalogue it says nothing. */
  lemma BindingMeans(cfg: Config, d: Item)
    requires Sane(cfg)
    ensures BindingOk(cfg, d) <==> !MisboundDeployment(cfg, d)
    ensures d.name !in cfg.catalog ==> BindingOk(cfg, d)
  {
    hide Ascii;
  }

  lemma PolicyMeans(d: Item, mode: Option<Bytes>)
    ensures PolicyName(d).None? <==> NoPolicy(d)
    ensures PolicyName(d).Some? ==> PolicyName(d) == d.raiPolicy
    ensures AllowsStreaming(mode) <==> StreamingMode(mode)
    ensures Governed(d) <==> d.format != Some(Ascii("Anthropic"))
  {
    hide Ascii, Trim;
  }

  /** Which entries break a rule by themselves, in the same terms. */
  lemma BreaksMeans(cfg: Config, log: seq<Entry>)
    requires Sane(cfg)
    ensures SomeBreak(cfg, log) <==>
            UnboundAccount(cfg, log) || CaptureSetting(log) || CaptureChild(log) || SomeMisbound(cfg, log)
  {
    hide Ascii, BindingOk, MisboundDeployment;
    forall d
      ensures BindingOk(cfg, d) <==> !MisboundDeployment(cfg, d)
    {
      BindingMeans(cfg, d);
    }
    hide Sane;
    if SomeBreak(cfg, log) {
      var i :| 0 <= i < |log| && Breaks(cfg, log[i]);
      var e := log[i];
      assert e in log;
      match e.role
      case AccountRole => assert e == Got(AccountRole, AccountAnswer(e.answer.account));
      case Settings(scope) => assert e == Got(Settings(scope), SettingsAnswer(e.answer.count));
      case Children(scope, c) => assert e == Got(Children(scope, c), PageAnswer(e.answer.items, e.answer.link));
      case Deployments =>
        var d :| d in e.answer.items && !BindingOk(cfg, d);
        assert ListedDeployment(log, d);
    }
    if UnboundAccount(cfg, log) {
      var a :| Got(AccountRole, AccountAnswer(a)) in log && !cfg.bound(a);
      var i :| 0 <= i < |log| && log[i] == Got(AccountRole, AccountAnswer(a));
      assert Breaks(cfg, log[i]);
    }
    if CaptureSetting(log) {
      var scope, n: nat :| Got(Settings(scope), SettingsAnswer(n)) in log && n > 0;
      var i :| 0 <= i < |log| && log[i] == Got(Settings(scope), SettingsAnswer(n));
      assert Breaks(cfg, log[i]);
    }
    if CaptureChild(log) {
      var scope, c, items, link :|
        && Got(Children(scope, c), PageAnswer(items, link)) in log
        && (c.Connections? || c.CapabilityHosts?)
        && items != [];
      var i :| 0 <= i < |log| && log[i] == Got(Children(scope, c), PageAnswer(items, link));
      assert Breaks(cfg, log[i]);
    }
    if SomeMisbound(cfg, log) {
      var d :| ListedDeployment(log, d) && MisboundDeployment(cfg, d);
      var i :| 0 <= i < |log| && log[i].Got? && log[i].role == Deployments && log[i].answer.PageAnswer?
               && d in log[i].answer.items;
      assert Breaks(cfg, log[i]);
    }
  }

  /** A read fails with the kind it was given; an answer of the wrong shape is transient, a refusal is definitive. */
  lemma FailureKinds(role: Role, a: Answer)
    ensures a.Failed? ==> FailKind(Got(role, a)) == Some(a.kind)
    ensures role == TokenRole && !a.Failed? ==> (FailKind(Got(role, a)) == None <==> a.TokenAnswer?)
    ensures role == AccountRole && !a.Failed? ==> (FailKind(Got(role, a)) == None <==> a.AccountAnswer?)
    ensures role.Settings? && !a.Failed? ==> (FailKind(Got(role, a)) == None <==> a.SettingsAnswer?)
    ensures role.Policy? && !a.Failed? ==> (FailKind(Got(role, a)) == None <==> a.PolicyAnswer?)
    ensures (role.Children? || role.Deployments?) && !a.Failed? ==> (FailKind(Got(role, a)) == None <==> a.PageAnswer?)
    ensures !a.Failed? ==> FailKind(Got(role, a)) != Some(Definitive)
    ensures FailKind(Refused(role)) == Some(Definitive)
  {
  }

  /** A collection is followed for a hundred pages. */
  lemma PageLimit(log: seq<Entry>, role: Role)
    ensures PagesUsedUp(log, role) <==> |log| >= 100 && forall i :: |log| - 100 <= i < |log| ==> log[i].role == role
  {
  }

  // ----- names

  /** The leaf of a name is what follows its last slash, or all of it. */
  lemma {:induction false} LeafNameIs(name: Bytes)
    ensures forall i :: 0 <= i < |LeafName(name)| ==> LeafName(name)[i] != SLASH
    ensures |LeafName(name)| <= |name| && name[|name| - |LeafName(name)|..] == LeafName(name)
    ensures |LeafName(name)| < |name| ==> name[|name| - |LeafName(name)| - 1] == SLASH
    decreases |name|
  {
    if name != [] && name[|name| - 1] != SLASH {
      LeafNameIs(name[..|name| - 1]);
    }
  }

  /** White space only, character by character. */
  predicate AllWhite(b: Bytes)
    decreases |b|
  {
    b == [] || (WhitespaceWidth(b) > 0 && AllWhite(b[WhitespaceWidth(b)..]))
  }

  lemma {:induction false} TrimStartCuts(b: Bytes)
    ensures |TrimStart(b)| <= |b| && b[|b| - |TrimStart(b)|..] == TrimStart(b)
    ensures AllWhite(b[..|b| - |TrimStart(b)|]) && WhitespaceWidth(TrimStart(b)) == 0
    decreases |b|
  {
    hide WhitespaceWidth;
    var n := WhitespaceWidth(b);
    if n > 0 {
      TrimStartCuts(b[n..]);
      var k := |b| - |TrimStart(b)|;
      assert b[..k][n..] == b[n..][..k - n];
      WidthInPrefix(b, k);
    } else {
      assert b[..0] == [];
    }
  }

  lemma WidthInPrefix(b: Bytes, k: nat)
    requires WhitespaceWidth(b) <= k <= |b| && WhitespaceWidth(b) > 0
    ensures WhitespaceWidth(b[..k]) == WhitespaceWidth(b)
  {
  }

  lemma {:induction false} TrimEndCuts(b: Bytes)
    ensures |TrimEnd(b)| <= |b| && b[..|TrimEnd(b)|] == TrimEnd(b)
    ensures AllWhite(b[|TrimEnd(b)|..]) && TrailingWidth(TrimEnd(b)) == 0
    decreases |b|
  {
    hide WhitespaceWidth, AllWhite, TrailingWidth;
    var n := TrailingWidth(b);
    if n > 0 {
      var before, last := b[..|b| - n], b[|b| - n..];
      TrimEndCuts(before);
      var k := |TrimEnd(b)|;
      assert TrimEnd(b) == TrimEnd(before);
      assert before[..k] == b[..k];
      assert b[k..] == before[k..] + last;
      LastIsWhite(b);
      WhiteAppend(before[k..], last);
    } else {
      assert TrimEnd(b) == b;
      assert b[|b|..] == [] && b[..|b|] == b;
      NothingIsWhite(b[|b|..]);
    }
  }

  lemma NothingIsWhite(b: Bytes)
    requires b == []
    ensures AllWhite(b)
  {
  }

  lemma LastIsWhite(b: Bytes)
    requires TrailingWidth(b) > 0
    ensures AllWhite(b[|b| - TrailingWidth(b)..])
  {
    var n := TrailingWidth(b);
    var last := b[|b| - n..];
    assert WhitespaceWidth(last) == n && last[n..] == [];
  }

  lemma {:induction false} WhiteAppend(a: Bytes, b: Bytes)
    requires AllWhite(a) && AllWhite(b)
    ensures AllWhite(a + b)
    decreases |a|
  {
    if a == [] {
      assert a + b == b;
    } else {
      var n := WhitespaceWidth(a);
      WhiteAppend(a[n..], b);
      assert (a + b)[n..] == a[n..] + b;
      assert (a + b)[..|a|] == a;
      WidthExtends(a, b);
    }
  }

  lemma WidthExtends(a: Bytes, b: Bytes)
    requires WhitespaceWidth(a) > 0
    ensures WhitespaceWidth(a + b) == WhitespaceWidth(a)
  {
  }

  /** Trimming cuts white space at both ends, all of it, and nothing else. */
  lemma TrimIs(b: Bytes) returns (before: Bytes, after: Bytes)
    ensures b == before + Trim(b) + after
    ensures AllWhite(before) && AllWhite(after) && WhitespaceWidth(Trim(b)) == 0
  {
    hide AllWhite, WhitespaceWidth, TrimStart, TrimEnd, TrailingWidth;
    var cut := TrimEnd(b);
    TrimEndCuts(b);
    TrimStartCuts(cut);
    before, after := cut[..|cut| - |Trim(b)|], b[|cut|..];
    assert cut == before + Trim(b);
  }
}
