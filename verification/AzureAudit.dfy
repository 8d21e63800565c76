/**
 The Azure owner-capture audit: a sweep of paged reads, any of which may fail at any point, that
 collects rule violations and is then collapsed into the boot gate's verdict. The answers of the
 control plane are an arbitrary sequence; every read and its outcome is kept in a log, and the
 verdict is characterised by that log alone.
 */
module AzureAudit {
  import opened Common
  import opened SseEvents

  const MAX_ARM_PAGES: nat := 100
  const SLASH: byte := 0x2F
  const AI_SERVICES := Ascii("AIServices")
  const ANTHROPIC_FORMAT := Ascii("Anthropic")
  const MISSING := Ascii("<missing>")
  const ASYNCHRONOUS := Ascii("Asynchronous_filter")
  const DEFERRED := Ascii("Deferred")

  datatype ErrorKind = Transient | Definitive

  datatype Provider = OpenAi | Foundry

  datatype Account = Account(id: Bytes, kind: Bytes, properties: Bytes)

  /** A listed resource: a child by its name, a deployment with its model identity and policy. */
  datatype Item = Item(name: Bytes, format: Option<Bytes>, model: Option<Bytes>, raiPolicy: Option<Bytes>)

  /** What a target's configuration fixes. `bound` is the account-binding check. */
  datatype Config = Config(provider: Provider, catalog: set<Bytes>, modelFormat: Bytes, bound: Account -> bool)

  datatype Link = LastPage | NextPage | EmptyLink

  /** One answer of the control plane. An answer of another shape than asked for fails to decode. */
  datatype Answer =
    | TokenAnswer
    | AccountAnswer(account: Account)
    | SettingsAnswer(count: nat)
    | PageAnswer(items: seq<Item>, link: Link)
    | PolicyAnswer(mode: Option<Bytes>)
    | Failed(kind: ErrorKind)

  datatype Collection = Projects | Connections | CapabilityHosts

  /** What is being read. A scope is the account (None) or one of its projects. */
  datatype Role =
    | TokenRole
    | AccountRole
    | Settings(scope: Option<Bytes>)
    | Children(scope: Option<Bytes>, collection: Collection)
    | Deployments
    | Policy(name: Bytes)

  /** A read and its answer, or a refusal that happened without one. */
  datatype Entry = Got(role: Role, answer: Answer) | Refused(role: Role)

  predicate Shaped(role: Role, a: Answer) {
    match role
    case TokenRole => a.TokenAnswer?
    case AccountRole => a.AccountAnswer?
    case Settings(_) => a.SettingsAnswer?
    case Children(_, _) => a.PageAnswer?
    case Deployments => a.PageAnswer?
    case Policy(_) => a.PolicyAnswer?
  }

  /** How a read failed, if it did: decoding failures are transient, protocol refusals definitive. */
  function FailKind(e: Entry): Option<ErrorKind> {
    if e.Refused? then Some(Definitive)
    else if e.answer.Failed? then Some(e.answer.kind)
    else if !Shaped(e.role, e.answer) then Some(Transient)
    else None
  }

  // ----- the rules

  predicate StartsWithSlash(id: Bytes) {
    id != [] && id[0] == SLASH
  }

  /** `rsplit('/').next()`. */
  function LeafName(name: Bytes): Bytes {
    if name == [] then [] else if name[|name| - 1] == SLASH then []
    else LeafName(name[..|name| - 1]) + [name[|name| - 1]]
  }

  predicate BindingOk(cfg: Config, d: Item) {
    d.name in cfg.catalog ==>
      (if d.format.Some? then d.format.value else MISSING) == cfg.modelFormat
      && (if d.model.Some? then d.model.value else MISSING) == d.name
  }

  predicate AllowsStreaming(mode: Option<Bytes>) {
    mode == Some(ASYNCHRONOUS) || mode == Some(DEFERRED)
  }

  /** The width of a trailing White_Space character. */
  function TrailingWidth(b: Bytes): (n: nat)
    ensures n <= |b|
  {
    if |b| >= 1 && WhitespaceWidth(b[|b| - 1..]) == 1 then 1
    else if |b| >= 2 && WhitespaceWidth(b[|b| - 2..]) == 2 then 2
    else if |b| >= 3 && WhitespaceWidth(b[|b| - 3..]) == 3 then 3
    else 0
  }

  function TrimEnd(b: Bytes): Bytes
    decreases |b|
  {
    var n := TrailingWidth(b);
    if n == 0 then b else TrimEnd(b[..|b| - n])
  }

  /** `str::trim`. */
  function Trim(b: Bytes): Bytes {
    TrimStart(TrimEnd(b))
  }

  predicate Governed(d: Item) {
    d.format != Some(ANTHROPIC_FORMAT)
  }

  /** The policy a deployment names, None when it names none. */
  function PolicyName(d: Item): Option<Bytes> {
    if d.raiPolicy.Some? && Trim(d.raiPolicy.value) != [] then d.raiPolicy else None
  }

  // ----- what a log shows

  /** An observation that breaks a rule by itself. */
  ghost predicate Breaks(cfg: Config, e: Entry) {
    e.Got? &&
    match e.role
    case AccountRole => e.answer.AccountAnswer? && !cfg.bound(e.answer.account)
    case Settings(_) => e.answer.SettingsAnswer? && e.answer.count > 0
    case Children(_, c) => c != Projects && e.answer.PageAnswer? && e.answer.items != []
    case Deployments => e.answer.PageAnswer? && exists d :: d in e.answer.items && !BindingOk(cfg, d)
    case _ => false
  }

  ghost predicate SomeBreak(cfg: Config, log: seq<Entry>) {
    exists i :: 0 <= i < |log| && Breaks(cfg, log[i])
  }

  /** The items of the pages in these entries, in order. */
  function ItemsOf(entries: seq<Entry>): seq<Item> {
    if entries == [] then []
    else
      var last := entries[|entries| - 1];
      ItemsOf(entries[..|entries| - 1]) + (if last.Got? && last.answer.PageAnswer? then last.answer.items else [])
  }

  ghost predicate Reported(before: seq<Entry>, after: seq<Entry>, failure: Option<ErrorKind>) {
    && before <= after
    && (failure.None? ==> forall i :: |before| <= i < |after| ==> FailKind(after[i]).None?)
    && (failure.Some? ==> exists i :: |before| <= i < |after| && FailKind(after[i]) == failure)
  }

  /** The role was read to its end. */
  ghost predicate ReadToEnd(log: seq<Entry>, role: Role) {
    exists i :: 0 <= i < |log| && Ends(log[i], role)
  }

  ghost predicate Ends(e: Entry, role: Role) {
    e.Got? && e.role == role && Shaped(role, e.answer) && (e.answer.PageAnswer? ==> e.answer.link.LastPage?)
  }

  lemma ReadToEndGrows(a: seq<Entry>, b: seq<Entry>, role: Role)
    requires a <= b && ReadToEnd(a, role)
    ensures ReadToEnd(b, role)
  {
    var i :| 0 <= i < |a| && Ends(a[i], role);
    assert b[i] == a[i];
  }

  lemma ReportedThen(a: seq<Entry>, b: seq<Entry>, c: seq<Entry>, first: Option<ErrorKind>, second: Option<ErrorKind>)
    requires Reported(a, b, first) && Reported(b, c, second)
    ensures Reported(a, c, if second.Some? then second else first)
  {
    if second.Some? {
      var i :| |b| <= i < |c| && FailKind(c[i]) == second;
      assert |a| <= i;
    } else if first.Some? {
      var i :| |a| <= i < |b| && FailKind(b[i]) == first;
      assert c[i] == b[i];
    } else {
      forall i | |a| <= i < |c|
        ensures FailKind(c[i]).None?
      {
        if i < |b| {
          assert c[i] == b[i];
        }
      }
    }
  }

  lemma {:induction false} ItemsOfMember(entries: seq<Entry>, x: Item)
    ensures x in ItemsOf(entries) <==>
            exists i :: 0 <= i < |entries| && entries[i].Got? && entries[i].answer.PageAnswer?
                && x in entries[i].answer.items
    decreases |entries|
  {
    if entries != [] {
      var before, last := entries[..|entries| - 1], entries[|entries| - 1];
      ItemsOfMember(before, x);
      assert forall i :: 0 <= i < |before| ==> before[i] == entries[i];
    }
  }
}
