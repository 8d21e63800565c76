/** The sweep itself, as it fills the audit, and the gate that collapses it. */
module AzureSweep {
  import opened Common
  import opened AzureAudit
  import opened AzureRequests
  import opened AzureRules

  datatype Finding =
    | AccountNotBound
    | DiagnosticCapture(scope: Option<Bytes>)
    | CaptureChildren(scope: Option<Bytes>, collection: Collection)
    | Misbound(deployment: Bytes)
    | SynchronousStreaming
    | SweepStoppedEarly(kind: ErrorKind)

  /** The gate's answer: the instant the deployment binding was checked, or an error of some kind. */
  datatype Verdict = Passed(verifiedAt: nat) | Rejected(kind: ErrorKind)

  ghost predicate PolicyHasMode(log: seq<Entry>, name: Bytes, mode: Option<Bytes>) {
    Got(Policy(name), PolicyAnswer(mode)) in log
  }

  /** A deployment that the streaming check, as coded, reports: policies are looked up by trimmed name. */
  ghost predicate ReportedStreaming(log: seq<Entry>, d: Item) {
    && Governed(d)
    && (PolicyName(d).None? ||
        exists mode :: PolicyHasMode(log, Trim(PolicyName(d).value), mode) && !AllowsStreaming(mode))
  }

  ghost predicate SomeStreamingReport(cfg: Config, log: seq<Entry>) {
    cfg.provider.OpenAi? && exists d :: ListedDeployment(log, d) && ReportedStreaming(log, d)
  }

  /** Something the sweep read breaks a rule it checks. */
  ghost predicate Violated(cfg: Config, log: seq<Entry>) {
    SomeBreak(cfg, log) || SomeStreamingReport(cfg, log)
  }

  /** A read within one scope. */
  predicate ScopedRole(role: Role, scope: Option<Bytes>) {
    role == Settings(scope) || role == Children(scope, Connections) || role == Children(scope, CapabilityHosts)
  }

  predicate ProjectRole(role: Role) {
    (role.Settings? || role.Children?) && role.scope.Some?
  }

  lemma BreakExtends(cfg: Config, a: seq<Entry>, b: seq<Entry>)
    requires a <= b
    ensures SomeBreak(cfg, b) <==> SomeBreak(cfg, a) || exists i :: |a| <= i < |b| && Breaks(cfg, b[i])
  {
    if SomeBreak(cfg, a) {
      var i :| 0 <= i < |a| && Breaks(cfg, a[i]);
      assert Breaks(cfg, b[i]);
    }
    if SomeBreak(cfg, b) {
      var i :| 0 <= i < |b| && Breaks(cfg, b[i]);
      if i < |a| {
        assert Breaks(cfg, a[i]);
      }
    }
  }

  /** New entries of one child role break a rule exactly when they list something. */
  lemma ChildBreaks(cfg: Config, a: seq<Entry>, b: seq<Entry>, scope: Option<Bytes>, c: Collection)
    requires a <= b && forall i :: |a| <= i < |b| ==> b[i].role == Children(scope, c)
    ensures (exists i :: |a| <= i < |b| && Breaks(cfg, b[i])) <==> c != Projects && ItemsOf(b[|a|..]) != []
  {
    hide ItemsOf;
    var added := b[|a|..];
    assert forall k :: 0 <= k < |added| ==> added[k] == b[|a| + k];
    if c != Projects && ItemsOf(added) != [] {
      var x := ItemsOf(added)[0];
      ItemsOfMember(added, x);
      var k :| 0 <= k < |added| && added[k].Got? && added[k].answer.PageAnswer? && x in added[k].answer.items;
      assert Breaks(cfg, b[|a| + k]);
    }
    if exists i :: |a| <= i < |b| && Breaks(cfg, b[i]) {
      var i :| |a| <= i < |b| && Breaks(cfg, b[i]);
      ItemsOfMember(added, b[i].answer.items[0]);
      assert added[i - |a|] == b[i];
    }
  }

  /** New deployment pages break a rule exactly when one of their deployments is misbound. */
  lemma DeploymentBreaks(cfg: Config, a: seq<Entry>, b: seq<Entry>)
    requires a <= b && forall i :: |a| <= i < |b| ==> b[i].role == Deployments
    ensures (exists i :: |a| <= i < |b| && Breaks(cfg, b[i])) <==>
            exists d :: d in ItemsOf(b[|a|..]) && !BindingOk(cfg, d)
  {
    hide ItemsOf, BindingOk;
    var added := b[|a|..];
    assert forall k :: 0 <= k < |added| ==> added[k] == b[|a| + k];
    if exists d :: d in ItemsOf(added) && !BindingOk(cfg, d) {
      var d :| d in ItemsOf(added) && !BindingOk(cfg, d);
      ItemsOfMember(added, d);
      var k :| 0 <= k < |added| && added[k].Got? && added[k].answer.PageAnswer? && d in added[k].answer.items;
      assert Breaks(cfg, b[|a| + k]);
    }
    if exists i :: |a| <= i < |b| && Breaks(cfg, b[i]) {
      var i :| |a| <= i < |b| && Breaks(cfg, b[i]);
      var d :| d in b[i].answer.items && !BindingOk(cfg, d);
      ItemsOfMember(added, d);
      assert added[i - |a|] == b[i];
    }
  }

  /** Part-way through a collection: n pages of that role, each passing the check and linking on. */
  ghost predicate Draining(start: seq<Entry>, log: seq<Entry>, role: Role, check: seq<Item> -> bool,
                           items: seq<Item>, n: nat) {
    && start <= log && |log| == |start| + n && n <= MAX_ARM_PAGES
    && items == ItemsOf(log[|start|..])
    && forall i :: |start| <= i < |log| ==> GoodPage(log[i], role, check) && log[i].answer.link.NextPage?
  }

  ghost predicate GoodPage(e: Entry, role: Role, check: seq<Item> -> bool) {
    e.Got? && e.role == role && e.answer.PageAnswer? && check(e.answer.items)
  }

  /** What a paged read leaves behind: all it saw, and the failure that stopped it, if one did. */
  ghost predicate Drained(start: seq<Entry>, log: seq<Entry>, role: Role, check: seq<Item> -> bool,
                          items: seq<Item>, failure: Option<ErrorKind>) {
    && Reported(start, log, failure)
    && items == ItemsOf(log[|start|..])
    && PagedInOrder(start, log, role, check)
    && (failure.None? ==> LastEnds(log, role))
    && (failure != Some(Definitive) ==>
          forall i :: |start| <= i < |log| && log[i].Got? && log[i].answer.PageAnswer? ==> check(log[i].answer.items))
  }

  lemma DrainedRoles(start: seq<Entry>, log: seq<Entry>, role: Role, check: seq<Item> -> bool,
                     items: seq<Item>, failure: Option<ErrorKind>)
    requires Drained(start, log, role, check, items, failure)
    ensures start <= log && |start| < |log| && items == ItemsOf(log[|start|..])
    ensures forall i :: |start| <= i < |log| ==> log[i].role == role
    ensures failure.None? ==> ReadToEnd(log, role)
  {
    hide ItemsOf;
    forall i | |start| <= i < |log|
      ensures log[i].role == role
    {
      assert PageStep(|start|, log, i, role, check);
    }
  }

  lemma NothingDrained(log: seq<Entry>, role: Role, check: seq<Item> -> bool)
    ensures Draining(log, log, role, check, [], 0)
  {
    assert log[|log|..] == [];
  }

  /** One entry after good pages that link on is in order; so is a refusal after one more page. */
  lemma PageInOrder(start: seq<Entry>, log: seq<Entry>, role: Role, check: seq<Item> -> bool, items: seq<Item>,
                    n: nat, e: Entry)
    requires role.Children? || role.Deployments?
    requires Draining(start, log, role, check, items, n) && e.role == role
    requires if e.Got? then n < MAX_ARM_PAGES else n == MAX_ARM_PAGES
    ensures PagedInOrder(start, log + [e], role, check)
    ensures forall i :: |start| <= i < |log| ==> FailKind(log[i]).None?
  {
    hide ItemsOf;
    var all := log + [e];
    forall i | |start| <= i < |all|
      ensures PageStep(|start|, all, i, role, check)
    {
      if i > |start| {
        assert all[i - 1] == log[i - 1];
      }
    }
  }

  lemma RefusedInOrder(start: seq<Entry>, log: seq<Entry>, role: Role, check: seq<Item> -> bool)
    requires PagedInOrder(start, log, role, check)
    requires var last := log[|log| - 1];
             && last.Got? && last.role == role && last.answer.PageAnswer?
             && (last.answer.link.EmptyLink? || !check(last.answer.items))
    ensures PagedInOrder(start, log + [Refused(role)], role, check)
  {
    var all := log + [Refused(role)];
    forall i | |start| <= i < |all|
      ensures PageStep(|start|, all, i, role, check)
    {
      if i < |log| {
        assert PageStep(|start|, log, i, role, check);
      }
    }
  }

  lemma DrainFails(start: seq<Entry>, log: seq<Entry>, role: Role, check: seq<Item> -> bool, items: seq<Item>, n: nat,
                   a: Answer)
    requires role.Children? || role.Deployments?
    requires Draining(start, log, role, check, items, n) && n < MAX_ARM_PAGES && !a.PageAnswer?
    ensures Drained(start, log + [Got(role, a)], role, check, items, FailKind(Got(role, a)))
  {
    hide ItemsOf, PagedInOrder;
    Extended(start, log, Got(role, a));
    PageInOrder(start, log, role, check, items, n, Got(role, a));
    assert items + [] == items;
    assert (log + [Got(role, a)])[|log|] == Got(role, a);
  }

  lemma DrainsPage(start: seq<Entry>, log: seq<Entry>, role: Role, check: seq<Item> -> bool, items: seq<Item>, n: nat,
                   a: Answer)
    requires role.Children? || role.Deployments?
    requires Draining(start, log, role, check, items, n) && n < MAX_ARM_PAGES && a.PageAnswer?
    ensures check(a.items) && a.link.NextPage? ==>
              Draining(start, log + [Got(role, a)], role, check, items + a.items, n + 1)
    ensures check(a.items) && a.link.LastPage? ==>
              Drained(start, log + [Got(role, a)], role, check, items + a.items, None)
    ensures !check(a.items) || a.link.EmptyLink? ==>
              Drained(start, log + [Got(role, a)] + [Refused(role)], role, check, items + a.items, Some(Definitive))
  {
    hide ItemsOf, PagedInOrder;
    var e := Got(role, a);
    var all := log + [e];
    Extended(start, log, e);
    PageInOrder(start, log, role, check, items, n, e);
    assert all[|all| - 1] == e;
    if !check(a.items) || a.link.EmptyLink? {
      RefusedInOrder(start, all, role, check);
      RefusalReported(start, all, role, items + a.items);
    }
  }

  lemma RefusalReported(start: seq<Entry>, log: seq<Entry>, role: Role, items: seq<Item>)
    requires start <= log && items == ItemsOf(log[|start|..])
    ensures Reported(start, log + [Refused(role)], Some(Definitive))
    ensures items == ItemsOf((log + [Refused(role)])[|start|..])
  {
    hide ItemsOf;
    Extended(start, log, Refused(role));
    assert items + [] == items;
    assert FailKind((log + [Refused(role)])[|log|]) == Some(Definitive);
  }

  lemma DrainsTooFar(start: seq<Entry>, log: seq<Entry>, role: Role, check: seq<Item> -> bool, items: seq<Item>)
    requires role.Children? || role.Deployments?
    requires Draining(start, log, role, check, items, MAX_ARM_PAGES)
    ensures Drained(start, log + [Refused(role)], role, check, items, Some(Definitive))
  {
    hide ItemsOf, PagedInOrder;
    PageInOrder(start, log, role, check, items, MAX_ARM_PAGES, Refused(role));
    RefusalReported(start, log, role, items);
  }

  class Audit {
    const cfg: Config
    /** The control plane's answers, in the order of the requests. */
    const answers: nat -> Answer
    const clock: nat -> nat
    var at: nat
    var findings: seq<Finding>
    var deployments: seq<Item>
    var bindingVerifiedAt: Option<nat>
    ghost var log: seq<Entry>

    constructor (cfg: Config, answers: nat -> Answer, clock: nat -> nat)
      ensures log == [] && findings == [] && bindingVerifiedAt.None? && Truthful()
      ensures this.cfg == cfg && this.answers == answers && this.clock == clock && at == 0
    {
      this.cfg, this.answers, this.clock := cfg, answers, clock;
      at, findings, deployments, bindingVerifiedAt, log := 0, [], [], None, [];
    }

    /** The log holds exactly the answers that have been given, in order. */
    ghost predicate Truthful()
      reads this
    {
      AnswersOf(log) == FirstAnswers(answers, at)
    }

    /** Findings have been recorded exactly when something read so far breaks a rule by itself. */
    ghost predicate Tallied()
      reads this
    {
      findings != [] <==> SomeBreak(cfg, log)
    }

    method Get(role: Role) returns (a: Answer)
      requires Truthful()
      modifies this`at, this`log
      ensures Truthful()
      ensures log == old(log) + [Got(role, a)]
    {
      a := answers(at);
      AnswersOfSnoc(log, Got(role, a));
      at := at + 1;
      log := log + [Got(role, a)];
    }

    /** `fetch_paged_checked`: drain the pages, and never throw away what was read. */
    method FetchPaged(role: Role, check: seq<Item> -> bool) returns (items: seq<Item>, failure: Option<ErrorKind>)
      requires role.Children? || role.Deployments?
      requires Truthful()
      modifies this`at, this`log
      ensures Truthful()
      ensures Drained(old(log), log, role, check, items, failure)
    {
      hide ItemsOf, Draining, Drained, AnswersOf, FirstAnswers;
      items := [];
      var n := 0;
      NothingDrained(log, role, check);
      while n < MAX_ARM_PAGES
        invariant n <= MAX_ARM_PAGES
        invariant Truthful() && Draining(old(log), log, role, check, items, n)
      {
        ghost var before := log;
        var a := Get(role);
        if !a.PageAnswer? {
          DrainFails(old(log), before, role, check, items, n, a);
          return items, FailKind(Got(role, a));
        }
        DrainsPage(old(log), before, role, check, items, n, a);
        items := items + a.items;
        if !check(a.items) || a.link.EmptyLink? {
          failure := Refuse(role);
          return;
        }
        if a.link.LastPage? {
          return items, None;
        }
        n := n + 1;
      }
      DrainsTooFar(old(log), log, role, check, items);
      failure := Refuse(role);
    }

    /** A protocol error of the verifier's own making: no request is made, and the error is definitive. */
    method Refuse(role: Role) returns (failure: Option<ErrorKind>)
      requires Truthful()
      modifies this`log
      ensures Truthful()
      ensures log == old(log) + [Refused(role)] && failure == Some(Definitive)
      ensures FailKind(log[|log| - 1]) == failure
    {
      AnswersOfSnoc(log, Refused(role));
      log := log + [Refused(role)];
      failure := Some(Definitive);
    }

    /** `audit_scope`: no settings, no connections, no capability hosts. */
    method AuditScope(scope: Option<Bytes>, hasChildren: bool, idOk: bool) returns (failure: Option<ErrorKind>)
      requires Tallied() && Truthful() && AllAsked(cfg, log)
      requires Bound(cfg, log) && ScopeDue(log, scope) && hasChildren == HasChildren(log) && idOk == IdOk(log)
      modifies this`at, this`log, this`findings
      ensures Tallied() && Truthful() && AllAsked(cfg, log)
      ensures Reported(old(log), log, failure)
      ensures failure.None? ==> ScopeRead(log, scope, hasChildren) && LastSucceeded(log)
      ensures forall i :: |old(log)| <= i < |log| ==> ScopedRole(log[i].role, scope)
      ensures SweptProjects(log) == SweptProjects(old(log)) + (if scope.Some? then [scope.value] else [])
    {
      hide ItemsOf, AnswersOf, FirstAnswers, AllAsked, ScopeDue, SomeBreak, SweptProjects;
      failure := AuditSettings(scope, idOk);
      if failure.Some? || !hasChildren {
        return;
      }
      ghost var settings := log;
      failure := AuditCollection(scope, Connections);
      NoneSwept(settings, log);
      if failure.Some? {
        return;
      }
      ghost var before := log;
      failure := AuditCollection(scope, CapabilityHosts);
      NoneSwept(before, log);
      ReadToEndGrows(before, log, Children(scope, Connections));
    }

    /** The diagnostic settings of one scope. */
    method AuditSettings(scope: Option<Bytes>, idOk: bool) returns (failure: Option<ErrorKind>)
      requires Tallied() && Truthful() && AllAsked(cfg, log)
      requires Begins(cfg, log, Settings(scope), idOk)
      modifies this`at, this`log, this`findings
      ensures Tallied() && Truthful() && AllAsked(cfg, log)
      ensures Reported(old(log), log, failure)
      ensures failure.None? ==> LastEnds(log, Settings(scope)) && ReadToEnd(log, Settings(scope))
      ensures forall i :: |old(log)| <= i < |log| ==> log[i].role == Settings(scope)
      ensures SweptProjects(log) == SweptProjects(old(log)) + (if scope.Some? then [scope.value] else [])
    {
      hide AnswersOf, FirstAnswers, AllAsked, Begins, SweptProjects;
      if !idOk {
        failure := Refuse(Settings(scope));
        AskedNext(cfg, old(log), Refused(Settings(scope)));
        OneSwept(old(log), Refused(Settings(scope)));
        BreakExtends(cfg, old(log), log);
        return;
      }
      var a := Get(Settings(scope));
      AskedNext(cfg, old(log), Got(Settings(scope), a));
      OneSwept(old(log), Got(Settings(scope), a));
      BreakExtends(cfg, old(log), log);
      if !a.SettingsAnswer? {
        assert FailKind(log[|log| - 1]).Some?;
        return FailKind(Got(Settings(scope), a));
      }
      if a.count > 0 {
        findings := findings + [DiagnosticCapture(scope)];
        assert Breaks(cfg, log[|log| - 1]);
      }
      assert Ends(log[|log| - 1], Settings(scope));
      return None;
    }

    /** One capture collection: assert over what was read before letting its failure through. */
    method AuditCollection(scope: Option<Bytes>, c: Collection) returns (failure: Option<ErrorKind>)
      requires Tallied() && Truthful() && AllAsked(cfg, log)
      requires c != Projects && Begins(cfg, log, Children(scope, c), true)
      modifies this`at, this`log, this`findings
      ensures Tallied() && Truthful() && AllAsked(cfg, log) && Bound(cfg, log) && HasChildren(log)
      ensures Reported(old(log), log, failure)
      ensures failure.None? ==> ReadToEnd(log, Children(scope, c)) && LastEnds(log, Children(scope, c))
      ensures forall role :: ReadToEnd(old(log), role) ==> ReadToEnd(log, role)
      ensures forall i :: |old(log)| <= i < |log| ==> log[i].role == Children(scope, c)
    {
      hide ItemsOf, AnswersOf, FirstAnswers, AllAsked, CollectionDue, PagedInOrder;
      var items;
      items, failure := FetchPaged(Children(scope, c), _ => true);
      DrainedRoles(old(log), log, Children(scope, c), _ => true, items, failure);
      PagesAsked(cfg, old(log), log, Children(scope, c), _ => true);
      ChildBreaks(cfg, old(log), log, scope, c);
      BreakExtends(cfg, old(log), log);
      if items != [] {
        findings := findings + [CaptureChildren(scope, c)];
      }
      forall role | ReadToEnd(old(log), role)
        ensures ReadToEnd(log, role)
      {
        ReadToEndGrows(old(log), log, role);
      }
    }

    /** The project list, from which nothing but the projects to sweep is taken. */
    method ListProjects() returns (projects: seq<Item>, failure: Option<ErrorKind>)
      requires Tallied() && Truthful() && AllAsked(cfg, log)
      requires Bound(cfg, log) && HasChildren(log) && |log| == 2
      modifies this`at, this`log
      ensures Tallied() && Truthful() && AllAsked(cfg, log) && ScopeDue(log, None)
      ensures Reported(old(log), log, failure)
      ensures forall x :: ListedProject(log, x) <==> x in projects
      ensures projects == ProjectItems(log) && SweptProjects(log) == []
      ensures failure.None? ==> ReadToEnd(log, Children(None, Projects))
      ensures forall i :: |old(log)| <= i < |log| ==> log[i].role == Children(None, Projects)
    {
      hide ItemsOf, AnswersOf, FirstAnswers, AllAsked, PagedInOrder, ListedProject, SweptProjects, ProjectItems;
      projects, failure := FetchPaged(Children(None, Projects), _ => true);
      DrainedRoles(old(log), log, Children(None, Projects), _ => true, projects, failure);
      PagesAsked(cfg, old(log), log, Children(None, Projects), _ => true);
      ChildBreaks(cfg, old(log), log, None, Projects);
      BreakExtends(cfg, old(log), log);
      NothingListed(old(log));
      ProjectsListed(old(log), log, projects);
      NoProjectYet(old(log));
      NoneSwept(old(log), log);
      AllListed(old(log), log);
    }

    /** `audit_capture_surfaces`: the account, then every project seen, then the project list's own failure. */
    method AuditCaptureSurfaces(hasChildren: bool, idOk: bool) returns (failure: Option<ErrorKind>)
      requires Tallied() && Truthful() && AllAsked(cfg, log)
      requires Bound(cfg, log) && |log| == 2 && hasChildren == HasChildren(log) && idOk == IdOk(log)
      modifies this`at, this`log, this`findings
      ensures Tallied() && Truthful() && AllAsked(cfg, log)
      ensures Reported(old(log), log, failure)
      ensures failure.None? ==> SurfacesRead(log, hasChildren) && LastSucceeded(log)
      ensures forall i :: |old(log)| <= i < |log| ==> !log[i].role.Deployments? && !log[i].role.Policy?
      ensures SweptProjects(log) <= LeafNames(ProjectItems(log))
      ensures OnlyFails(log, ListRead) ==> ScopesRead(log)
    {
      hide ItemsOf, ScopeRead, ReadToEnd, ListedProject, AnswersOf, FirstAnswers, AllAsked, SweptProjects, ProjectItems,
           OnlyFails, Tallied, Truthful;
      var projects: seq<Item>, held: Option<ErrorKind> := [], None;
      NothingListed(log);
      NoProjectYet(log);
      if hasChildren {
        projects, held := ListProjects();
      }
      ghost var listed := log;
      failure := AuditScope(None, hasChildren, idOk);
      ReportedThen(old(log), listed, log, held, failure);
      NoNewProjects(listed, log);
      NoneListed(listed, log);
      if failure.Some? {
        OtherFailure(listed, log, failure);
        return;
      }
      ghost var own := log;
      failure := AuditProjects(projects, idOk);
      ReportedThen(old(log), own, log, held, failure);
      NoNewProjects(own, log);
      NoneListed(own, log);
      if failure.Some? {
        OtherFailure(own, log, failure);
        return;
      }
      ScopeReadGrows(own, log, None, hasChildren);
      if hasChildren && held.None? {
        ReadToEndGrows(listed, log, Children(None, Projects));
      }
      return held;
    }

    /** The projects that were listed, one after the other, up to the first that cannot be read. */
    method AuditProjects(projects: seq<Item>, idOk: bool) returns (failure: Option<ErrorKind>)
      requires Tallied() && Truthful() && AllAsked(cfg, log)
      requires Bound(cfg, log) && idOk == IdOk(log) && LastSucceeded(log)
      requires projects != [] ==> HasChildren(log) && ScopeRead(log, None, true)
      requires (forall x :: ListedProject(log, x) <==> x in projects) && SweptProjects(log) == []
      modifies this`at, this`log, this`findings
      ensures Tallied() && Truthful() && AllAsked(cfg, log)
      ensures Reported(old(log), log, failure)
      ensures failure.None? ==> ProjectsRead(log) && LastSucceeded(log)
      ensures forall i :: |old(log)| <= i < |log| ==> ProjectRole(log[i].role)
      ensures SweptProjects(log) <= LeafNames(projects)
      ensures failure.None? ==> SweptProjects(log) == LeafNames(projects)
    {
      hide ItemsOf, ScopeRead, ReadToEnd, ListedProject, AnswersOf, FirstAnswers, AllAsked, Bound, SomeBreak, FailKind,
           SweptProjects, LeafNames, Tallied, Truthful, LastSucceeded;
      failure := None;
      var i := 0;
      while i < |projects|
        invariant i <= |projects| && failure.None?
        invariant Tallied() && Truthful() && AllAsked(cfg, log)
        invariant Bound(cfg, log) && idOk == IdOk(log) && LastSucceeded(log)
        invariant SweptProjects(log) == LeafNames(projects[..i])
        invariant Reported(old(log), log, None)
        invariant forall x :: ListedProject(log, x) <==> x in projects
        invariant projects != [] ==> HasChildren(log) && ScopeRead(log, None, true)
        invariant forall k :: 0 <= k < i ==> ScopeRead(log, Some(LeafName(projects[k].name)), true)
        invariant forall i :: |old(log)| <= i < |log| ==> ProjectRole(log[i].role)
      {
        ghost var before := log;
        var leaf := LeafName(projects[i].name);
        assert ListedProject(log, projects[i]);
        LeafNamesSnoc(projects, i);
        failure := AuditScope(Some(leaf), true, idOk);
        ReportedThen(old(log), before, log, None, failure);
        NoNewProjects(before, log);
        if failure.Some? {
          return;
        }
        BoundGrows(cfg, before, log);
        ScopesGrow(before, log, projects[..i]);
        ScopeReadGrows(before, log, None, true);
        i := i + 1;
      }
      assert projects[..i] == projects;
    }

    /** The deployment list: every deployment read is held against its binding. */
    method AuditDeployments() returns (items: seq<Item>, failure: Option<ErrorKind>)
      requires Tallied() && Truthful() && AllAsked(cfg, log) && Begins(cfg, log, Deployments, true)
      requires forall d :: !ListedDeployment(log, d)
      modifies this
      ensures Tallied() && Truthful() && AllAsked(cfg, log) && Reported(old(log), log, failure)
      ensures forall d :: d in items <==> ListedDeployment(log, d)
      ensures failure.None? ==> LastEnds(log, Deployments)
      ensures |old(log)| < |log| && forall i :: |old(log)| <= i < |log| ==> log[i].role.Deployments?
      ensures bindingVerifiedAt ==
              if failure.None? && (forall d :: d in items ==> BindingOk(cfg, d)) then Some(clock(at))
              else old(bindingVerifiedAt)
      ensures failure.None? && findings == [] ==> bindingVerifiedAt == Some(clock(at))
      ensures Sane(cfg) && (exists d :: d in items && MisboundDeployment(cfg, d)) ==> findings != []
      ensures old(findings) <= findings && deployments == items
    {
      hide ItemsOf, ReadToEnd, ListedDeployment, AnswersOf, FirstAnswers, AllAsked, Begins, PagedInOrder;
      items, failure := FetchPaged(Deployments, _ => true);
      DrainedRoles(old(log), log, Deployments, _ => true, items, failure);
      PagesAsked(cfg, old(log), log, Deployments, _ => true);
      DeploymentsListed(old(log), log, items);
      DeploymentBreaks(cfg, old(log), log);
      BreakExtends(cfg, old(log), log);
      var findingsBefore := |findings|;
      ghost var tally, read := findings, log;
      deployments := items;
      var i := 0;
      while i < |items|
        invariant i <= |items|
        invariant log == read && Truthful() && bindingVerifiedAt == old(bindingVerifiedAt) && deployments == items
        invariant tally <= findings
        invariant findings != tally <==> exists k :: 0 <= k < i && !BindingOk(cfg, items[k])
      {
        if !BindingOk(cfg, items[i]) {
          findings := findings + [Misbound(items[i].name)];
        }
        i := i + 1;
      }
      if failure.None? && |findings| == findingsBefore {
        bindingVerifiedAt := Some(clock(at));
      }
      MisboundIsFound(cfg, log, items);
    }

    /** `audit_async_filter_configuration`: resolve the named policies, then judge what is observable. */
    method AuditStreaming(items: seq<Item>, truncated: Option<ErrorKind>) returns (failure: Option<ErrorKind>)
      requires Truthful() && AllAsked(cfg, log) && Bound(cfg, log) && cfg.provider.OpenAi?
      requires forall d :: d in items ==> ListedDeployment(log, d)
      requires log[|log| - 1].role.Deployments? && forall i :: 0 <= i < |log| ==> !log[i].role.Policy?
      modifies this`at, this`log, this`findings
      ensures Truthful() && AllAsked(cfg, log)
      ensures old(log) <= log && forall i :: |old(log)| <= i < |log| ==> log[i].role.Policy?
      ensures truncated.Some? ==> failure == truncated
      ensures truncated.None? ==> Reported(old(log), log, failure)
      ensures findings != [] <==> old(findings) != [] || exists d :: d in items && ReportedStreaming(log, d)
      ensures (forall i :: |old(log)| <= i < |log| ==> FailKind(log[i]).None?) ==> PoliciesRead(log, items)
    {
      hide Trim, AnswersOf, FirstAnswers, AllAsked;
      failure := truncated;
      var names := set d | d in items && Governed(d) && PolicyName(d).Some? :: PolicyName(d).value;
      assert forall d :: d in items && Governed(d) && PolicyName(d).Some? ==> PolicyName(d).value in names;
      NoModesYet(log);
      var modes: map<Bytes, Option<Bytes>>, own: Option<ErrorKind>;
      NamesAreListed(log, items, names);
      modes, own := ResolvePolicies(names);
      failure := if failure.Some? then failure else own;
      JudgedFromLog(log, modes);
      if exists d :: d in items && Judged(d, modes) {
        findings := findings + [SynchronousStreaming];
      }
      if own.None? {
        AllPoliciesRead(log, items, modes);
      }
    }

    /** The loop over the named policies, which stops at the first that cannot be read. */
    method ResolvePolicies(names: set<Bytes>) returns (modes: map<Bytes, Option<Bytes>>, failure: Option<ErrorKind>)
      requires Truthful() && AllAsked(cfg, log) && Bound(cfg, log) && cfg.provider.OpenAi?
      requires forall n :: n in names ==> NamedPolicy(log, n)
      requires log[|log| - 1].role.Deployments? && forall i :: 0 <= i < |log| ==> !log[i].role.Policy?
      modifies this`at, this`log
      ensures Truthful() && AllAsked(cfg, log)
      ensures forall i :: |old(log)| <= i < |log| ==> log[i].role.Policy?
      ensures Reported(old(log), log, failure) && ModesFromLog(log, modes)
      ensures if failure.None? then modes.Keys == names else modes.Keys < names
    {
      hide AnswersOf, FirstAnswers, AllAsked, NamedPolicy, ModesFromLog;
      NoModesYet(log);
      var todo := names;
      modes := map[];
      while todo != {}
        invariant Truthful() && AllAsked(cfg, log) && old(log) <= log
        invariant Reported(old(log), log, None)
        invariant forall i :: |old(log)| <= i < |log| ==> log[i].role.Policy?
        invariant forall i :: 0 <= i < |log| && log[i].role.Policy? ==> log[i].role.name !in todo
        invariant modes.Keys == names - todo && todo <= names
        invariant log[|log| - 1].role.Deployments? || LastSucceeded(log)
        invariant ModesFromLog(log, modes)
        decreases |todo|
      {
        var name :| name in todo;
        ghost var before := log;
        NamedPolicyGrows(old(log), before, name);
        var a := Get(Policy(name));
        AskedNext(cfg, before, Got(Policy(name), a));
        if !a.PolicyAnswer? {
          failure := FailKind(Got(Policy(name), a));
          assert FailKind(log[|log| - 1]) == failure;
          NoModeAdded(before, modes, Got(Policy(name), a));
          assert name in names && name !in modes;
          return;
        }
        ModeAdded(before, modes, name, a.mode);
        todo := todo - {name};
        modes := modes[name := a.mode];
      }
      failure := None;
    }

    /** The token and the account record. An account that is not bound ends the sweep with a finding. */
    method BindAccount() returns (account: Option<Account>, failure: Option<ErrorKind>)
      requires log == [] && findings == [] && Truthful()
      modifies this`at, this`log, this`findings
      ensures Truthful() && AllAsked(cfg, log) && 1 <= |log| <= 2
      ensures Reported([], log, failure) && Tallied()
      ensures forall i :: 0 <= i < |log| ==> log[i].role.TokenRole? || log[i].role.AccountRole?
      ensures failure.Some? ==> account.None? && findings == []
      ensures failure.None? && account.None? ==> findings != []
      ensures account.Some? <==> Bound(cfg, log)
      ensures account.Some? ==> findings == [] && log[1].answer.account == account.value && |log| == 2
    {
      hide AnswersOf, FirstAnswers, AllAsked;
      NothingAsked(cfg);
      var token := Get(TokenRole);
      AskedNext(cfg, [], Got(TokenRole, token));
      assert log == [] + [Got(TokenRole, token)];
      if !token.TokenAnswer? {
        assert FailKind(log[0]).Some?;
        return None, FailKind(Got(TokenRole, token));
      }
      ghost var before := log;
      var a := Get(AccountRole);
      AskedNext(cfg, before, Got(AccountRole, a));
      if !a.AccountAnswer? {
        assert FailKind(log[1]).Some?;
        return None, FailKind(Got(AccountRole, a));
      }
      if !cfg.bound(a.account) {
        assert Breaks(cfg, log[1]);
        findings := findings + [AccountNotBound];
        return None, None;
      }
      return Some(a.account), None;
    }

    /** `sweep`: everything the audit reads, in order; the failure is for the gate to weigh. */
    method Sweep() returns (failure: Option<ErrorKind>)
      requires log == [] && findings == [] && bindingVerifiedAt.None? && Truthful()
      modifies this
      ensures Truthful() && AllAsked(cfg, log)
      ensures Reported([], log, failure)
      ensures findings != [] <==> Violated(cfg, log)
      ensures ReadsOn(cfg, log)
      ensures failure.None? && Bound(cfg, log) ==> CompleteSweep(cfg, log)
      ensures failure.None? && !Bound(cfg, log) ==> findings != []
      ensures failure.None? && findings == [] ==>
                bindingVerifiedAt.Some? && StampedAt(log, clock, bindingVerifiedAt.value)
    {
      hide ItemsOf, ScopeRead, ReadToEnd, Breaks, ReportedStreaming, ProjectsRead, FailKind, ListedDeployment,
           ListedProject, AnswersOf, FirstAnswers, AllAsked, StampedAt, SurfacesRead, LastEnds, BindingOk, SomeBreak,
           LastSucceeded, Governed, PolicyName, OnlyFails, ScopesRead, ReadsOn, SweptProjects, ProjectItems;
      var account;
      account, failure := BindAccount();
      NothingListed(log);
      if account.None? {
        NotBoundReadsOn(cfg, log);
        return;
      }
      ghost var bound := log;
      var hasChildren := account.value.kind == AI_SERVICES;
      failure := AuditCaptureSurfaces(hasChildren, StartsWithSlash(account.value.id));
      ReportedThen([], bound, log, None, failure);
      NoNewDeployments(bound, log);
      if failure.Some? {
        StopsAtSurfaces(cfg, bound, log, failure);
        return;
      }
      AllSucceeded(log, ListRead);
      ghost var surfaces := log;
      var items;
      items, failure := AuditDeployments();
      ReportedThen([], surfaces, log, None, failure);
      ghost var listed, instant, held := log, at, failure;
      if cfg.provider.OpenAi? {
        failure := AuditStreaming(items, failure);
        PoliciesAdded(cfg, listed, log);
        HeldReported(listed, log, held, failure);
      } else {
        assert !SomeStreamingReport(cfg, log);
      }
      ReadsToTheEnd(cfg, surfaces, listed, log, held, items);
      if failure.None? {
        NothingLeftOut(cfg, log);
        assert instant == |AnswersOf(listed)|;
        Stamp(listed, log, clock);
      }
    }

    /** `verify_deployment_bindings`: the poll between sweeps stops at the first page that breaks a binding. */
    method VerifyDeploymentBindings() returns (failure: Option<ErrorKind>)
      requires log == [] && findings == [] && Truthful()
      modifies this`at, this`log, this`findings
      ensures Truthful() && AskedByPoll(cfg, log)
      ensures SomeBreak(cfg, log) ==> failure == Some(Definitive)
      ensures failure.None? ==> ReadToEnd(log, Deployments)
      ensures failure.None? <==> !SomeBreak(cfg, log) && forall i :: 0 <= i < |log| ==> FailKind(log[i]).None?
      ensures Sane(cfg) && SomeMisbound(cfg, log) ==> failure == Some(Definitive)
      ensures Sane(cfg) && UnboundAccount(cfg, log) ==> failure == Some(Definitive)
      ensures failure.Some? && !SomeBreak(cfg, log) ==> exists i :: 0 <= i < |log| && FailKind(log[i]) == failure
    {
      hide ItemsOf, Breaks, FailKind, ReadToEnd, BindingOk, AnswersOf, FirstAnswers, AllAsked, PagedInOrder, LastEnds;
      var account;
      account, failure := BindAccount();
      if account.None? {
        RulesOfBreaks(cfg, log);
        return if failure.Some? then failure else Some(Definitive);
      }
      ghost var before := log;
      var items;
      items, failure := FetchPaged(Deployments, page => AllBound(cfg, page));
      DrainedRoles(before, log, Deployments, page => AllBound(cfg, page), items, failure);
      assert log[..2] == before;
      ReportedThen([], before, log, None, failure);
      RulesOfBreaks(cfg, log);
      if failure != Some(Definitive) {
        CheckedPagesDoNotBreak(cfg, before, log);
      }
    }

    /** The boot gate: `audit_target`, then `findings_outrank` and `into_result`. */
    method VerifyTarget() returns (r: Verdict)
      requires log == [] && findings == [] && bindingVerifiedAt.None? && Truthful()
      modifies this
      ensures Truthful() && AllAsked(cfg, log)
      ensures Sane(cfg) && BreaksARule(cfg, log) ==> r == Rejected(Definitive)
      ensures Sane(cfg) && !BreaksARule(cfg, log) && (forall i :: 0 <= i < |log| ==> FailKind(log[i]).None?) ==>
                r.Passed?
      ensures Violated(cfg, log) ==> r == Rejected(Definitive)
      ensures !Violated(cfg, log) ==>
                (r.Passed? <==> forall i :: 0 <= i < |log| ==> FailKind(log[i]).None?)
      ensures !Violated(cfg, log) && r.Rejected? ==> exists i :: 0 <= i < |log| && FailKind(log[i]) == Some(r.kind)
      ensures && !Violated(cfg, log) && r.Rejected?
              && (forall i :: 0 <= i < |log| ==> FailKind(log[i]) != Some(Definitive)) ==>
                r == Rejected(Transient)
      ensures r.Passed? ==> CompleteSweep(cfg, log) && StampedAt(log, clock, r.verifiedAt)
      ensures ReadsOn(cfg, log)
      ensures (forall i :: 0 <= i < |log| ==> FailKind(log[i]).None?) && Bound(cfg, log) ==> CompleteSweep(cfg, log)
    {
      hide Violated, CompleteSweep, FailKind, AnswersOf, FirstAnswers, AllAsked, StampedAt, ReadsOn, BreaksARule, Sane;
      var failure := Sweep();
      ViolatedMeans(cfg, log);
      if failure.Some? {
        if findings == [] {
          ghost var i :| 0 <= i < |log| && FailKind(log[i]) == failure;
          assert FailKind(log[i]) == Some(Definitive) || failure.value.Transient?;
          return Rejected(failure.value);
        }
        findings := findings + [SweepStoppedEarly(failure.value)];
      }
      if findings != [] {
        return Rejected(Definitive);
      }
      if bindingVerifiedAt.None? {
        // A passing audit always carries the instant of its binding check.
        assert false;
      }
      return Passed(bindingVerifiedAt.value);
    }
  }

  /** The poll reads the token, the account and then the deployments, page by page while they are bound. */
  ghost predicate AskedByPoll(cfg: Config, log: seq<Entry>) {
    if !Bound(cfg, log) then AllAsked(cfg, log) && 1 <= |log| <= 2
    else PagedInOrder(log[..2], log, Deployments, page => AllBound(cfg, page))
  }

  lemma BoundGrows(cfg: Config, a: seq<Entry>, b: seq<Entry>)
    requires a <= b && Bound(cfg, a)
    ensures Bound(cfg, b) && HasChildren(b) == HasChildren(a) && IdOk(b) == IdOk(a)
  {
  }

  lemma NothingAsked(cfg: Config)
    ensures AllAsked(cfg, [])
  {
  }

  lemma NamesAreListed(log: seq<Entry>, items: seq<Item>, names: set<Bytes>)
    requires forall d :: d in items ==> ListedDeployment(log, d)
    requires names == set d | d in items && Governed(d) && PolicyName(d).Some? :: PolicyName(d).value
    ensures forall n :: n in names ==> NamedPolicy(log, n)
  {
    hide ListedDeployment, Governed, PolicyName;
  }

  /**
   The instant belongs to the binding check: it is the one after the last page of the deployment
   list, and only policies were read after that.
   */
  ghost predicate StampedAt(log: seq<Entry>, clock: nat -> nat, instant: nat) {
    exists k :: 0 < k <= |log| && LastEnds(log[..k], Deployments) && OnlyPoliciesFrom(log, k)
                && instant == clock(|AnswersOf(log[..k])|)
  }

  ghost predicate OnlyPoliciesFrom(log: seq<Entry>, k: nat) {
    forall i :: k <= i < |log| ==> log[i].role.Policy?
  }

  lemma Stamp(listed: seq<Entry>, log: seq<Entry>, clock: nat -> nat)
    requires listed <= log && LastEnds(listed, Deployments) && OnlyPoliciesFrom(log, |listed|)
    ensures StampedAt(log, clock, clock(|AnswersOf(listed)|))
  {
    assert log[..|listed|] == listed;
  }

  lemma LastRead(listed: seq<Entry>, log: seq<Entry>, role: Role)
    requires listed <= log && LastEnds(listed, role)
    ensures ReadToEnd(log, role)
  {
    assert log[|listed| - 1] == listed[|listed| - 1];
  }

  lemma RulesOfBreaks(cfg: Config, log: seq<Entry>)
    ensures Sane(cfg) ==>
              (SomeBreak(cfg, log) <==>
               UnboundAccount(cfg, log) || CaptureSetting(log) || CaptureChild(log) || SomeMisbound(cfg, log))
  {
    if Sane(cfg) {
      BreaksMeans(cfg, log);
    }
  }

  lemma MisboundIsFound(cfg: Config, log: seq<Entry>, items: seq<Item>)
    requires forall d :: d in items <==> ListedDeployment(log, d)
    ensures Sane(cfg) && (exists d :: d in items && MisboundDeployment(cfg, d)) ==> SomeBreak(cfg, log)
  {
    hide ListedDeployment, MisboundDeployment;
    RulesOfBreaks(cfg, log);
  }

  lemma StreamingMeans(log: seq<Entry>, d: Item)
    ensures ReportedStreaming(log, d) <==> SynchronousDeployment(log, d)
  {
    hide Trim, Ascii;
    PolicyMeans(d, None);
    forall mode
      ensures AllowsStreaming(mode) <==> StreamingMode(mode)
    {
      PolicyMeans(d, mode);
    }
    hide AllowsStreaming, StreamingMode, Governed, PolicyName, NoPolicy;
    if PolicyName(d).Some? {
      var name := Trim(PolicyName(d).value);
      assert forall mode :: PolicyHasMode(log, name, mode) <==> Got(Policy(name), PolicyAnswer(mode)) in log;
    }
  }

  /** What the sweep reports is what breaks a rule. */
  lemma ViolatedMeans(cfg: Config, log: seq<Entry>)
    ensures Sane(cfg) ==> (Violated(cfg, log) <==> BreaksARule(cfg, log))
  {
    hide SomeBreak, UnboundAccount, CaptureSetting, CaptureChild, SomeMisbound, ListedDeployment, ReportedStreaming,
         SynchronousDeployment, Sane;
    RulesOfBreaks(cfg, log);
    forall d
      ensures ReportedStreaming(log, d) <==> SynchronousDeployment(log, d)
    {
      StreamingMeans(log, d);
    }
  }

  lemma CheckedPagesDoNotBreak(cfg: Config, a: seq<Entry>, b: seq<Entry>)
    requires a <= b && forall i :: |a| <= i < |b| ==> b[i].role == Deployments
    requires forall i :: |a| <= i < |b| && b[i].Got? && b[i].answer.PageAnswer? ==> AllBound(cfg, b[i].answer.items)
    ensures SomeBreak(cfg, b) <==> SomeBreak(cfg, a)
  {
    hide BindingOk;
    BreakExtends(cfg, a, b);
  }

  predicate AllBound(cfg: Config, items: seq<Item>) {
    forall k :: 0 <= k < |items| ==> BindingOk(cfg, items[k])
  }

  lemma NothingListed(log: seq<Entry>)
    requires forall i :: 0 <= i < |log| ==> log[i].role.TokenRole? || log[i].role.AccountRole?
    ensures (forall x :: !ListedProject(log, x)) && (forall d :: !ListedDeployment(log, d))
  {
  }

  lemma NoNewDeployments(a: seq<Entry>, b: seq<Entry>)
    requires a <= b && forall i :: |a| <= i < |b| ==> !b[i].role.Deployments?
    ensures forall d :: ListedDeployment(b, d) <==> ListedDeployment(a, d)
  {
    forall d
      ensures ListedDeployment(b, d) <==> ListedDeployment(a, d)
    {
      if ListedDeployment(a, d) {
        var i :| 0 <= i < |a| && a[i].Got? && a[i].role == Deployments && a[i].answer.PageAnswer?
            && d in a[i].answer.items;
        assert b[i] == a[i];
      }
    }
  }

  lemma SweptGrows(a: seq<Entry>, b: seq<Entry>, hasChildren: bool)
    requires a <= b && forall i :: |a| <= i < |b| ==> b[i].role != Children(None, Projects)
    ensures SurfacesRead(a, hasChildren) ==> SurfacesRead(b, hasChildren)
  {
    hide ScopeRead, ReadToEnd, ListedProject;
    NoNewProjects(a, b);
    if SurfacesRead(a, hasChildren) {
      if hasChildren {
        ReadToEndGrows(a, b, Children(None, Projects));
      }
      ScopeReadGrows(a, b, None, hasChildren);
      forall x | ListedProject(b, x)
        ensures ScopeRead(b, Some(LeafName(x.name)), true)
      {
        ScopeReadGrows(a, b, Some(LeafName(x.name)), true);
      }
    }
  }

  /** Policy reads leave the deployments listed, and the rules broken, as they were. */
  lemma PoliciesAdded(cfg: Config, a: seq<Entry>, b: seq<Entry>)
    requires a <= b && forall i :: |a| <= i < |b| ==> b[i].role.Policy?
    ensures forall d :: ListedDeployment(b, d) <==> ListedDeployment(a, d)
    ensures SomeBreak(cfg, b) <==> SomeBreak(cfg, a)
  {
    NoNewDeployments(a, b);
    BreakExtends(cfg, a, b);
  }

  lemma HeldReported(a: seq<Entry>, b: seq<Entry>, held: Option<ErrorKind>, failure: Option<ErrorKind>)
    requires Reported([], a, held) && a <= b
    requires held.Some? ==> failure == held
    requires held.None? ==> Reported(a, b, failure)
    ensures Reported([], b, failure)
  {
    if held.Some? {
      var i :| 0 <= i < |a| && FailKind(a[i]) == held;
      assert b[i] == a[i];
    } else {
      ReportedThen([], a, b, None, failure);
    }
  }

  lemma NoProjectYet(log: seq<Entry>)
    requires forall i :: 0 <= i < |log| ==> log[i].role.TokenRole? || log[i].role.AccountRole?
    ensures SweptProjects(log) == [] && ProjectItems(log) == []
  {
    assert [] <= log;
    NoneSwept([], log);
    NoneListed([], log);
  }

  /** A failed read that the sweep does not get past. */
  lemma OtherFailure(a: seq<Entry>, b: seq<Entry>, failure: Option<ErrorKind>)
    requires Reported(a, b, failure) && failure.Some?
    requires forall i :: |a| <= i < |b| ==> !ListRead(b[i].role)
    ensures !OnlyFails(b, ListRead)
  {
    var i :| |a| <= i < |b| && FailKind(b[i]) == failure;
    assert !ListRead(b[i].role);
  }

  lemma AllSucceeded(log: seq<Entry>, allowed: Role -> bool)
    requires forall i :: 0 <= i < |log| ==> FailKind(log[i]).None?
    ensures OnlyFails(log, allowed)
  {
  }

  lemma NotBoundReadsOn(cfg: Config, log: seq<Entry>)
    requires !Bound(cfg, log)
    ensures ReadsOn(cfg, log)
  {
  }

  /** Stopped on the capture surfaces: no later list can be the reason. */
  lemma StopsAtSurfaces(cfg: Config, bound: seq<Entry>, log: seq<Entry>, failure: Option<ErrorKind>)
    requires Reported(bound, log, failure) && failure.Some?
    requires forall i :: |bound| <= i < |log| ==> !LateRead(log[i].role)
    requires SweptProjects(log) <= LeafNames(ProjectItems(log)) && (OnlyFails(log, ListRead) ==> ScopesRead(log))
    ensures ReadsOn(cfg, log)
  {
    hide ScopesRead, SurfacesRead, ReadToEnd, SweptProjects, ProjectItems, Bound, NamedPoliciesRead;
    var i :| |bound| <= i < |log| && FailKind(log[i]) == failure;
    assert !LateRead(log[i].role) && !PolicyRead(log[i].role) && !DeploymentRead(log[i].role);
  }

  /** Past the capture surfaces: the deployments were asked for, and the policies of those listed. */
  lemma ReadsToTheEnd(cfg: Config, surfaces: seq<Entry>, listed: seq<Entry>, log: seq<Entry>,
                      held: Option<ErrorKind>, items: seq<Item>)
    requires surfaces <= listed <= log && |surfaces| < |listed| && |surfaces| >= 2
    requires SurfacesRead(surfaces, HasChildren(surfaces)) && ScopesRead(surfaces)
    requires forall i :: |surfaces| <= i < |listed| ==> listed[i].role.Deployments?
    requires forall i :: |listed| <= i < |log| ==> log[i].role.Policy?
    requires Reported(surfaces, listed, held) && (held.None? ==> LastEnds(listed, Deployments))
    requires forall d :: ListedDeployment(listed, d) <==> d in items
    requires cfg.provider.OpenAi? && (forall i :: |listed| <= i < |log| ==> FailKind(log[i]).None?) ==>
               PoliciesRead(log, items)
    ensures ReadsOn(cfg, log)
  {
    hide FailKind, SurfacesRead, ReadToEnd, LastEnds, Bound, Governed, PolicyName, ListedDeployment, SweptProjects,
         ProjectItems;
    assert forall i :: |surfaces| <= i < |listed| ==> log[i] == listed[i];
    ScopesStayRead(surfaces, log);
    assert log[|surfaces|].role.Deployments?;
    if OnlyFails(log, PolicyRead) {
      assert held.None?;
      LastRead(listed, log, Deployments);
    }
    if OnlyFails(log, DeploymentRead) && cfg.provider.OpenAi? {
      NoNewDeployments(listed, log);
    }
  }

  lemma ScopesStayRead(a: seq<Entry>, b: seq<Entry>)
    requires a <= b && |a| >= 2 && SurfacesRead(a, HasChildren(a)) && ScopesRead(a)
    requires forall i :: |a| <= i < |b| ==> LateRead(b[i].role)
    ensures SurfacesRead(b, HasChildren(b)) && ScopesRead(b)
  {
    hide ScopeRead, ReadToEnd, SweptProjects, ProjectItems, ListedProject;
    SweptGrows(a, b, HasChildren(a));
    NoneSwept(a, b);
    NoneListed(a, b);
  }

  /** A sweep that reads on and meets no failure is complete. */
  lemma NothingLeftOut(cfg: Config, log: seq<Entry>)
    requires ReadsOn(cfg, log) && Bound(cfg, log) && forall i :: 0 <= i < |log| ==> FailKind(log[i]).None?
    ensures CompleteSweep(cfg, log)
  {
    hide FailKind, Bound, SurfacesRead, ReadToEnd, NamedPoliciesRead;
  }

  /** What a passing sweep has read: each to its last page. */
  ghost predicate CompleteSweep(cfg: Config, log: seq<Entry>) {
    && Bound(cfg, log)
    && SurfacesRead(log, HasChildren(log))
    && ReadToEnd(log, Deployments)
    && (cfg.provider.OpenAi? ==> NamedPoliciesRead(log))
  }

  /** What `retain_observable_deployments` and `assess_streaming_configuration` report of a deployment. */
  predicate Judged(d: Item, modes: map<Bytes, Option<Bytes>>) {
    && Governed(d)
    && (PolicyName(d).None? ||
        (Trim(PolicyName(d).value) in modes && !AllowsStreaming(modes[Trim(PolicyName(d).value)])))
  }

  ghost predicate ModesFromLog(log: seq<Entry>, modes: map<Bytes, Option<Bytes>>) {
    forall name, mode :: PolicyHasMode(log, name, mode) <==> name in modes && modes[name] == mode
  }

  /** Every policy that a governed deployment names was resolved. */
  ghost predicate PoliciesRead(log: seq<Entry>, items: seq<Item>) {
    forall d :: d in items && Governed(d) && PolicyName(d).Some? ==> ReadToEnd(log, Policy(PolicyName(d).value))
  }

  lemma NoModesYet(log: seq<Entry>)
    requires forall i :: 0 <= i < |log| ==> !log[i].role.Policy?
    ensures ModesFromLog(log, map[])
  {
  }

  lemma NoModeAdded(log: seq<Entry>, modes: map<Bytes, Option<Bytes>>, e: Entry)
    requires ModesFromLog(log, modes) && e.Got? && !e.answer.PolicyAnswer?
    ensures ModesFromLog(log + [e], modes)
  {
    forall name, mode
      ensures PolicyHasMode(log + [e], name, mode) <==> PolicyHasMode(log, name, mode)
    {
    }
  }

  lemma ModeAdded(log: seq<Entry>, modes: map<Bytes, Option<Bytes>>, name: Bytes, mode: Option<Bytes>)
    requires ModesFromLog(log, modes) && name !in modes
    ensures ModesFromLog(log + [Got(Policy(name), PolicyAnswer(mode))], modes[name := mode])
  {
    var e := Got(Policy(name), PolicyAnswer(mode));
    forall n, m
      ensures PolicyHasMode(log + [e], n, m) <==> PolicyHasMode(log, n, m) || (n == name && m == mode)
    {
    }
  }

  lemma JudgedFromLog(log: seq<Entry>, modes: map<Bytes, Option<Bytes>>)
    requires ModesFromLog(log, modes)
    ensures forall d :: Judged(d, modes) <==> ReportedStreaming(log, d)
  {
    hide Trim;
    forall d
      ensures Judged(d, modes) <==> ReportedStreaming(log, d)
    {
      if Judged(d, modes) && PolicyName(d).Some? {
        assert PolicyHasMode(log, Trim(PolicyName(d).value), modes[Trim(PolicyName(d).value)]);
      }
    }
  }

  lemma AllPoliciesRead(log: seq<Entry>, items: seq<Item>, modes: map<Bytes, Option<Bytes>>)
    requires ModesFromLog(log, modes)
    requires forall d :: d in items && Governed(d) && PolicyName(d).Some? ==> PolicyName(d).value in modes
    ensures PoliciesRead(log, items)
  {
    forall d | d in items && Governed(d) && PolicyName(d).Some?
      ensures ReadToEnd(log, Policy(PolicyName(d).value))
    {
      var name := PolicyName(d).value;
      assert PolicyHasMode(log, name, modes[name]);
      var i :| 0 <= i < |log| && log[i] == Got(Policy(name), PolicyAnswer(modes[name]));
      assert Ends(log[i], Policy(name));
    }
  }

  lemma Extended(start: seq<Entry>, before: seq<Entry>, e: Entry)
    requires start <= before
    ensures (before + [e])[|start|..] == before[|start|..] + [e]
    ensures ItemsOf((before + [e])[|start|..]) ==
            ItemsOf(before[|start|..]) + (if e.Got? && e.answer.PageAnswer? then e.answer.items else [])
  {
    assert (before + [e])[|start|..] == before[|start|..] + [e];
    assert (before[|start|..] + [e])[..|before| - |start|] == before[|start|..];
  }

  lemma ProjectsListed(a: seq<Entry>, b: seq<Entry>, projects: seq<Item>)
    requires a <= b && (forall x :: !ListedProject(a, x))
    requires forall i :: |a| <= i < |b| ==> b[i].role == Children(None, Projects)
    requires projects == ItemsOf(b[|a|..])
    ensures forall x :: ListedProject(b, x) <==> x in projects
  {
    hide ItemsOf;
    forall x
      ensures ListedProject(b, x) <==> x in projects
    {
      ItemsOfMember(b[|a|..], x);
      assert forall k :: 0 <= k < |b[|a|..]| ==> b[|a|..][k] == b[|a| + k];
      assert !ListedProject(a, x);
      assert forall k :: 0 <= k < |a| ==>
          !(a[k].Got? && a[k].role == Children(None, Projects) && a[k].answer.PageAnswer? && x in a[k].answer.items);
      if ListedProject(b, x) {
        var i :| 0 <= i < |b| && b[i].Got? && b[i].role == Children(None, Projects) && b[i].answer.PageAnswer?
            && x in b[i].answer.items;
        assert i >= |a|;
        assert b[|a|..][i - |a|] == b[i];
      }
    }
  }

  lemma DeploymentsListed(a: seq<Entry>, b: seq<Entry>, items: seq<Item>)
    requires a <= b && (forall d :: !ListedDeployment(a, d))
    requires forall i :: |a| <= i < |b| ==> b[i].role == Deployments
    requires items == ItemsOf(b[|a|..])
    ensures forall d :: ListedDeployment(b, d) <==> d in items
  {
    hide ItemsOf;
    forall d
      ensures ListedDeployment(b, d) <==> d in items
    {
      ItemsOfMember(b[|a|..], d);
      assert forall k :: 0 <= k < |b[|a|..]| ==> b[|a|..][k] == b[|a| + k];
      assert !ListedDeployment(a, d);
      assert forall k :: 0 <= k < |a| ==>
          !(a[k].Got? && a[k].role == Deployments && a[k].answer.PageAnswer? && d in a[k].answer.items);
      if ListedDeployment(b, d) {
        var i :| 0 <= i < |b| && b[i].Got? && b[i].role == Deployments && b[i].answer.PageAnswer?
            && d in b[i].answer.items;
        assert i >= |a|;
        assert b[|a|..][i - |a|] == b[i];
      }
    }
  }

  lemma NoNewProjects(a: seq<Entry>, b: seq<Entry>)
    requires a <= b && forall i :: |a| <= i < |b| ==> b[i].role != Children(None, Projects)
    ensures forall x :: ListedProject(b, x) <==> ListedProject(a, x)
  {
    forall x
      ensures ListedProject(b, x) <==> ListedProject(a, x)
    {
      if ListedProject(a, x) {
        var i :| 0 <= i < |a| && a[i].Got? && a[i].role == Children(None, Projects) && a[i].answer.PageAnswer?
            && x in a[i].answer.items;
        assert b[i] == a[i];
      }
    }
  }

  lemma ScopesGrow(a: seq<Entry>, b: seq<Entry>, projects: seq<Item>)
    requires a <= b && forall k :: 0 <= k < |projects| ==> ScopeRead(a, Some(LeafName(projects[k].name)), true)
    ensures forall k :: 0 <= k < |projects| ==> ScopeRead(b, Some(LeafName(projects[k].name)), true)
  {
    forall k | 0 <= k < |projects|
      ensures ScopeRead(b, Some(LeafName(projects[k].name)), true)
    {
      ScopeReadGrows(a, b, Some(LeafName(projects[k].name)), true);
    }
  }
}
