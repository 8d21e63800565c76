/**
 What the Azure verifier asks of the control plane, and in which order: each request follows from
 the answers before it. Also what a log of requests and answers shows to have been read.
 */
module AzureRequests {
  import opened Common
  import opened AzureAudit

  /** The answers in a log, in order. A refusal has none. */
  function AnswersOf(log: seq<Entry>): seq<Answer> {
    if log == [] then []
    else
      var last := log[|log| - 1];
      AnswersOf(log[..|log| - 1]) + (if last.Got? then [last.answer] else [])
  }

  lemma AnswersOfSnoc(log: seq<Entry>, e: Entry)
    ensures AnswersOf(log + [e]) == AnswersOf(log) + (if e.Got? then [e.answer] else [])
  {
    assert (log + [e])[..|log|] == log;
  }

  /** What the control plane answers to the first n requests. */
  ghost function FirstAnswers(answers: nat -> Answer, n: nat): (r: seq<Answer>)
    ensures |r| == n
  {
    if n == 0 then [] else FirstAnswers(answers, n - 1) + [answers(n - 1)]
  }

  // ----- what a log shows to have been read

  /** One scope was read completely. */
  ghost predicate ScopeRead(log: seq<Entry>, scope: Option<Bytes>, hasChildren: bool) {
    && ReadToEnd(log, Settings(scope))
    && (hasChildren ==>
        ReadToEnd(log, Children(scope, Connections)) && ReadToEnd(log, Children(scope, CapabilityHosts)))
  }

  ghost predicate ListedProject(log: seq<Entry>, x: Item) {
    exists i :: 0 <= i < |log| && log[i].Got? && log[i].role == Children(None, Projects) && log[i].answer.PageAnswer?
                && x in log[i].answer.items
  }

  /** Every project listed in the log was read completely. */
  ghost predicate ProjectsRead(log: seq<Entry>) {
    forall x :: ListedProject(log, x) ==> ScopeRead(log, Some(LeafName(x.name)), true)
  }

  /** What the capture sweep has covered. */
  ghost predicate SurfacesRead(log: seq<Entry>, hasChildren: bool) {
    && (hasChildren ==> ReadToEnd(log, Children(None, Projects)))
    && ScopeRead(log, None, hasChildren)
    && ProjectsRead(log)
  }

  ghost predicate ListedDeployment(log: seq<Entry>, d: Item) {
    exists i :: 0 <= i < |log| && log[i].Got? && log[i].role == Deployments && log[i].answer.PageAnswer?
                && d in log[i].answer.items
  }

  /** A listed deployment is governed by a policy of this name. */
  ghost predicate NamedPolicy(log: seq<Entry>, name: Bytes) {
    exists d :: ListedDeployment(log, d) && Governed(d) && PolicyName(d) == Some(name)
  }

  lemma ScopeReadGrows(a: seq<Entry>, b: seq<Entry>, scope: Option<Bytes>, hasChildren: bool)
    requires a <= b && ScopeRead(a, scope, hasChildren)
    ensures ScopeRead(b, scope, hasChildren)
  {
    ReadToEndGrows(a, b, Settings(scope));
    if hasChildren {
      ReadToEndGrows(a, b, Children(scope, Connections));
      ReadToEndGrows(a, b, Children(scope, CapabilityHosts));
    }
  }

  lemma NamedPolicyGrows(a: seq<Entry>, b: seq<Entry>, name: Bytes)
    requires a <= b && NamedPolicy(a, name)
    ensures NamedPolicy(b, name)
  {
    var d :| ListedDeployment(a, d) && Governed(d) && PolicyName(d) == Some(name);
    var i :| 0 <= i < |a| && a[i].Got? && a[i].role == Deployments && a[i].answer.PageAnswer? && d in a[i].answer.items;
    assert b[i] == a[i];
    assert ListedDeployment(b, d);
  }

  // ----- the order of the requests

  /** The account record was read, and is the one that serves the configured host. */
  ghost predicate Bound(cfg: Config, log: seq<Entry>) {
    && |log| >= 2 && log[0] == Got(TokenRole, TokenAnswer)
    && log[1].Got? && log[1].role == AccountRole && log[1].answer.AccountAnswer?
    && cfg.bound(log[1].answer.account)
  }

  ghost predicate HasChildren(log: seq<Entry>) {
    |log| >= 2 && log[1].Got? && log[1].answer.AccountAnswer? && log[1].answer.account.kind == AI_SERVICES
  }

  ghost predicate IdOk(log: seq<Entry>) {
    |log| >= 2 && log[1].Got? && log[1].answer.AccountAnswer? && StartsWithSlash(log[1].answer.account.id)
  }

  ghost predicate LastEnds(log: seq<Entry>, role: Role) {
    log != [] && Ends(log[|log| - 1], role)
  }

  ghost predicate LastSucceeded(log: seq<Entry>) {
    log != [] && FailKind(log[|log| - 1]).None?
  }

  /** The account's own scope comes after the project list; a project's after the account's. */
  ghost predicate ScopeDue(log: seq<Entry>, scope: Option<Bytes>) {
    match scope
    case None => |log| >= 2 && if HasChildren(log) then log[|log| - 1].role == Children(None, Projects) else |log| == 2
    case Some(leaf) =>
      && HasChildren(log) && ScopeRead(log, None, true) && LastSucceeded(log)
      && exists x :: ListedProject(log, x) && LeafName(x.name) == leaf
  }

  ghost predicate CollectionDue(log: seq<Entry>, scope: Option<Bytes>, c: Collection) {
    match c
    case Projects => scope.None? && |log| == 2
    case Connections => LastEnds(log, Settings(scope))
    case CapabilityHosts => LastEnds(log, Children(scope, Connections))
  }

  /** After these entries it is the turn of this request; `sent` is false for a refusal without one. */
  ghost predicate Begins(cfg: Config, log: seq<Entry>, role: Role, sent: bool) {
    match role
    case TokenRole => sent && log == []
    case AccountRole => sent && log == [Got(TokenRole, TokenAnswer)]
    case Settings(scope) => Bound(cfg, log) && (sent <==> IdOk(log)) && ScopeDue(log, scope)
    case Children(scope, c) => sent && Bound(cfg, log) && HasChildren(log) && CollectionDue(log, scope, c)
    case Deployments => sent && Bound(cfg, log) && SurfacesRead(log, HasChildren(log)) && LastSucceeded(log)
    case Policy(name) =>
      && sent && Bound(cfg, log) && cfg.provider.OpenAi? && NamedPolicy(log, name)
      && (log[|log| - 1].role.Deployments? || LastSucceeded(log))
      && forall i :: 0 <= i < |log| ==> log[i].role != role
  }

  /** A page is followed by the page it links to, or by a refusal to go on. */
  ghost predicate Links(previous: Entry, e: Entry) {
    && previous.Got? && previous.role == e.role && previous.answer.PageAnswer?
    && (e.Got? ==> previous.answer.link.NextPage?)
  }

  /** As many entries of one collection as pages are followed. */
  ghost predicate PagesUsedUp(log: seq<Entry>, role: Role) {
    |log| >= MAX_ARM_PAGES && forall i :: |log| - MAX_ARM_PAGES <= i < |log| ==> log[i].role == role
  }

  /** The next page of a collection, or a refusal because of an empty link or too many pages. */
  ghost predicate Continues(log: seq<Entry>, e: Entry) {
    && log != [] && Links(log[|log| - 1], e)
    && (e.Refused? ==> log[|log| - 1].answer.link.EmptyLink? || PagesUsedUp(log, e.role))
  }

  ghost predicate Asked(cfg: Config, before: seq<Entry>, e: Entry) {
    Begins(cfg, before, e.role, e.Got?) || Continues(before, e)
  }

  /** Every request in the log was due when it was made. */
  ghost predicate AllAsked(cfg: Config, log: seq<Entry>) {
    forall i :: 0 <= i < |log| ==> Asked(cfg, log[..i], log[i])
  }

  lemma AskedNext(cfg: Config, log: seq<Entry>, e: Entry)
    requires AllAsked(cfg, log) && Asked(cfg, log, e)
    ensures AllAsked(cfg, log + [e])
  {
    hide Asked;
    var all := log + [e];
    forall i | 0 <= i < |all|
      ensures Asked(cfg, all[..i], all[i])
    {
      assert all[..i] == log[..i];
      if i == |log| {
        assert log[..i] == log;
      }
    }
  }

  // ----- the order of the projects

  /** The projects whose settings were asked for, in that order. */
  function SweptProjects(log: seq<Entry>): seq<Bytes> {
    if log == [] then []
    else
      var last := log[|log| - 1];
      SweptProjects(log[..|log| - 1]) +
      (if last.role.Settings? && last.role.scope.Some? then [last.role.scope.value] else [])
  }

  /** The projects that the pages of the project list name, in order. */
  function ProjectItems(log: seq<Entry>): seq<Item> {
    if log == [] then []
    else
      var last := log[|log| - 1];
      ProjectItems(log[..|log| - 1]) +
      (if last.Got? && last.role == Children(None, Projects) && last.answer.PageAnswer? then last.answer.items else [])
  }

  function LeafNames(items: seq<Item>): (r: seq<Bytes>)
    ensures |r| == |items|
  {
    seq(|items|, i requires 0 <= i < |items| => LeafName(items[i].name))
  }

  lemma LeafNamesSnoc(items: seq<Item>, k: nat)
    requires k < |items|
    ensures LeafNames(items[..k + 1]) == LeafNames(items[..k]) + [LeafName(items[k].name)]
    ensures LeafNames(items[..k + 1]) <= LeafNames(items)
  {
  }

  predicate ProjectSettings(role: Role) {
    role.Settings? && role.scope.Some?
  }

  lemma {:induction false} NoneSwept(a: seq<Entry>, b: seq<Entry>)
    requires a <= b && forall i :: |a| <= i < |b| ==> !ProjectSettings(b[i].role)
    ensures SweptProjects(b) == SweptProjects(a)
    decreases |b|
  {
    if a != b {
      NoneSwept(a, b[..|b| - 1]);
    }
  }

  lemma OneSwept(log: seq<Entry>, e: Entry)
    ensures SweptProjects(log + [e]) ==
            SweptProjects(log) + (if ProjectSettings(e.role) then [e.role.scope.value] else [])
  {
    assert (log + [e])[..|log|] == log;
  }

  lemma {:induction false} NoneListed(a: seq<Entry>, b: seq<Entry>)
    requires a <= b && forall i :: |a| <= i < |b| ==> b[i].role != Children(None, Projects)
    ensures ProjectItems(b) == ProjectItems(a)
    decreases |b|
  {
    if a != b {
      NoneListed(a, b[..|b| - 1]);
    }
  }

  lemma {:induction false} AllListed(a: seq<Entry>, b: seq<Entry>)
    requires a <= b && forall i :: |a| <= i < |b| ==> b[i].role == Children(None, Projects)
    ensures ProjectItems(b) == ProjectItems(a) + ItemsOf(b[|a|..])
    decreases |b|
  {
    if a == b {
      assert b[|a|..] == [];
    } else {
      var before := b[..|b| - 1];
      AllListed(a, before);
      assert b[|a|..][..|b| - |a| - 1] == before[|a|..];
    }
  }

  // ----- how far reading goes on

  /** Every failure in the log is one of these reads. */
  ghost predicate OnlyFails(log: seq<Entry>, allowed: Role -> bool) {
    forall i :: 0 <= i < |log| && FailKind(log[i]).Some? ==> allowed(log[i].role)
  }

  predicate ListRead(role: Role) {
    role == Children(None, Projects) || role.Deployments? || role.Policy?
  }

  predicate LateRead(role: Role) {
    role.Deployments? || role.Policy?
  }

  predicate PolicyRead(role: Role) {
    role.Policy?
  }

  predicate DeploymentRead(role: Role) {
    role.Deployments?
  }

  /** The account's own scope and every listed project were read, the projects in the order of their list. */
  ghost predicate ScopesRead(log: seq<Entry>) {
    ScopeRead(log, None, HasChildren(log)) && ProjectsRead(log) && SweptProjects(log) == LeafNames(ProjectItems(log))
  }

  /** Every policy that a listed deployment names was resolved. */
  ghost predicate NamedPoliciesRead(log: seq<Entry>) {
    forall d :: ListedDeployment(log, d) && Governed(d) && PolicyName(d).Some? ==>
      ReadToEnd(log, Policy(PolicyName(d).value))
  }

  /**
   No read is given up that does not have to be. A truncated project list still leads to the
   account and to every project that it named, a truncated deployment list to the policies of the
   deployments that it named; nothing but a failure ends the sweep of a bound account.
   */
  ghost predicate ReadsOn(cfg: Config, log: seq<Entry>) {
    Bound(cfg, log) ==>
      && SweptProjects(log) <= LeafNames(ProjectItems(log))
      && (OnlyFails(log, ListRead) ==> ScopesRead(log))
      && (OnlyFails(log, LateRead) ==>
            SurfacesRead(log, HasChildren(log)) && exists i :: 0 <= i < |log| && log[i].role.Deployments?)
      && (OnlyFails(log, PolicyRead) ==> ReadToEnd(log, Deployments))
      && (OnlyFails(log, DeploymentRead) && cfg.provider.OpenAi? ==> NamedPoliciesRead(log))
  }

  // ----- one paged collection

  /**
   How the entry at i of a paged read came about: the first page, a page that the one before links
   to, or a refusal because of a failed check, an empty link or too many pages.
   */
  ghost predicate PageStep(start: nat, log: seq<Entry>, i: nat, role: Role, check: seq<Item> -> bool)
    requires start <= i < |log|
  {
    && log[i].role == role
    && (i > start ==> Links(log[i - 1], log[i]))
    && (log[i].Got? ==> i - start < MAX_ARM_PAGES && (i > start ==> check(log[i - 1].answer.items)))
    && (log[i].Refused? ==>
          && start < i == |log| - 1
          && (i - start == MAX_ARM_PAGES || log[i - 1].answer.link.EmptyLink? || !check(log[i - 1].answer.items)))
  }

  ghost predicate PagedInOrder(start: seq<Entry>, log: seq<Entry>, role: Role, check: seq<Item> -> bool) {
    && start <= log && |start| < |log|
    && forall i :: |start| <= i < |log| ==> PageStep(|start|, log, i, role, check)
  }

  /** A paged read that is due and checks nothing asks for each of its pages in turn. */
  lemma PagesAsked(cfg: Config, a: seq<Entry>, b: seq<Entry>, role: Role, check: seq<Item> -> bool)
    requires AllAsked(cfg, a) && Begins(cfg, a, role, true) && PagedInOrder(a, b, role, check)
    requires forall page :: check(page)
    ensures AllAsked(cfg, b)
  {
    hide Begins;
    forall i | 0 <= i < |b|
      ensures Asked(cfg, b[..i], b[i])
    {
      if i < |a| {
        assert b[i] == a[i] && b[..i] == a[..i];
      } else {
        assert PageStep(|a|, b, i, role, check);
        if i == |a| {
          assert b[..i] == a;
        } else if i - |a| == MAX_ARM_PAGES {
          forall k | |a| <= k < i
            ensures b[..i][k].role == role
          {
            assert PageStep(|a|, b, k, role, check);
          }
        }
      }
    }
  }
}
