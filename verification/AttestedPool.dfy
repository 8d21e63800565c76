/**
 Attested connections: a pool per target that lends a connection to one request at a time, and
 the forwarding of a request, which may be retried once if the first connection handed it back
 unsent. Requests, peers and clocks take steps in any order.
 */
module AttestedPool {
  import opened Common

  /** Ages in seconds. The results hold for all limits, whatever the defaults. */
  datatype PoolLimits = PoolLimits(age: nat, idleAge: Option<nat>, requests: nat, idle: nat)

  /** A connection attested on its live session. `closed` is set when its transport ends. */
  datatype Conn = Conn(
    target: nat, attestedBy: nat, attestedAt: nat, idleSince: Option<nat>, expiresAt: Option<int>,
    requests: nat, closed: bool)

  /** `usable_at`: monotonic clock readings for ages, the wall clock for the expiry. */
  predicate UsableAt(c: Conn, limits: PoolLimits, now: nat, utc: int) {
    && (c.expiresAt.None? || utc < c.expiresAt.value)
    && now < c.attestedAt + limits.age
    && (c.idleSince.None? || limits.idleAge.None? || now < c.idleSince.value + limits.idleAge.value)
    && c.requests < limits.requests
    && !c.closed
  }

  // ----- the pool

  /** `Vec::retain`. */
  function Retain(idle: seq<nat>, usable: nat -> bool): seq<nat> {
    if idle == [] then []
    else
      var before := Retain(idle[..|idle| - 1], usable);
      if usable(idle[|idle| - 1]) then before + [idle[|idle| - 1]] else before
  }

  datatype Taken = Taken(conn: Option<nat>, idle: seq<nat>)

  function TakeFrom(idle: seq<nat>, usable: nat -> bool): Taken {
    var kept := Retain(idle, usable);
    if kept == [] then Taken(None, []) else Taken(Some(kept[|kept| - 1]), kept[..|kept| - 1])
  }

  /** The pool after a connection came back. */
  function GivenBack(idle: seq<nat>, id: nat, usable: nat -> bool, limit: nat): seq<nat> {
    if !usable(id) then idle
    else
      var kept := Retain(idle, usable);
      if |kept| < limit then kept + [id] else kept
  }

  class Pool {
    var idle: seq<nat>
    const limit: nat

    constructor (limit: nat)
      ensures idle == [] && this.limit == limit
    {
      idle := [];
      this.limit := limit;
    }

    method Sweep(usable: nat -> bool)
      modifies this
      ensures idle == Retain(old(idle), usable)
    {
      var all, i := idle, 0;
      idle := [];
      while i < |all|
        invariant i <= |all| && idle == Retain(all[..i], usable)
      {
        assert all[..i + 1][..i] == all[..i];
        if usable(all[i]) {
          idle := idle + [all[i]];
        }
        i := i + 1;
      }
      assert all[..i] == all;
    }

    method Take(usable: nat -> bool) returns (conn: Option<nat>)
      modifies this
      ensures Taken(conn, idle) == TakeFrom(old(idle), usable)
    {
      Sweep(usable);
      if idle == [] {
        return None;
      }
      conn := Some(idle[|idle| - 1]);
      idle := idle[..|idle| - 1];
    }

    /** False when the connection is retired instead. */
    method GiveBack(id: nat, usable: nat -> bool) returns (kept: bool)
      modifies this
      ensures idle == GivenBack(old(idle), id, usable, limit)
      ensures kept <==> usable(id) && |Retain(old(idle), usable)| < limit
    {
      if !usable(id) {
        return false;
      }
      Sweep(usable);
      if |idle| < limit {
        idle := idle + [id];
        return true;
      }
      return false;
    }
  }

  // ----- the lease that a response body holds

  datatype BodyEvent = MoreToCome | FullyRead | BodyError

  /** What one poll of the body gave; `last` is what `is_end_stream` says after a frame. */
  datatype Polled = NotReady | Ended | FrameError | FrameOk(last: bool)

  function EventOf(p: Polled): BodyEvent {
    match p
    case NotReady => MoreToCome
    case Ended => FullyRead
    case FrameError => BodyError
    case FrameOk(last) => if last then FullyRead else MoreToCome
  }

  /** The lease's connection and the pool after the event: a connection leaves its lease only once. */
  function Settled(held: Option<nat>, idle: seq<nat>, event: BodyEvent, usable: nat -> bool,
                   limit: nat): (Option<nat>, seq<nat>) {
    if held.None? || event.MoreToCome? then (held, idle)
    else (None, if event.FullyRead? then GivenBack(idle, held.value, usable, limit) else idle)
  }

  class Lease {
    var connection: Option<nat>
    const pool: Pool

    /** `Lease::new`: a response without a body gives its connection back at once. */
    constructor (endsAtOnce: bool, id: nat, pool: Pool, usable: nat -> bool)
      modifies pool
      ensures this.pool == pool
      ensures (connection, pool.idle) ==
              Settled(Some(id), old(pool.idle), if endsAtOnce then FullyRead else MoreToCome, usable, pool.limit)
    {
      this.pool := pool;
      connection := Some(id);
      new;
      GiveBackIfRead(endsAtOnce, usable);
    }

    method GiveBackIfRead(read: bool, usable: nat -> bool)
      modifies this, pool
      ensures (connection, pool.idle) ==
              Settled(old(connection), old(pool.idle), if read then FullyRead else MoreToCome, usable, pool.limit)
    {
      if read && connection.Some? {
        var _ := pool.GiveBack(connection.value, usable);
        connection := None;
      }
    }

    /** `poll_frame`. */
    method PollFrame(polled: Polled, usable: nat -> bool)
      modifies this, pool
      ensures (connection, pool.idle) == Settled(old(connection), old(pool.idle), EventOf(polled), usable, pool.limit)
    {
      match polled
      case Ended => GiveBackIfRead(true, usable);
      case FrameError => connection := None;
      case FrameOk(last) => GiveBackIfRead(last, usable);
      case NotReady =>
    }
  }

  predicate NoDup(s: seq<nat>) {
    forall i, j :: 0 <= i < j < |s| ==> s[i] != s[j]
  }

  lemma {:induction false} RetainFacts(idle: seq<nat>, usable: nat -> bool)
    ensures forall x :: x in Retain(idle, usable) <==> x in idle && usable(x)
    ensures |Retain(idle, usable)| <= |idle|
    ensures NoDup(idle) ==> NoDup(Retain(idle, usable))
    decreases |idle|
  {
    if idle != [] {
      var before, last := idle[..|idle| - 1], idle[|idle| - 1];
      RetainFacts(before, usable);
      assert idle == before + [last];
      hide NoDup;
      if NoDup(idle) {
        WithoutLast(before, last);
        AppendNew(Retain(before, usable), last);
      }
    }
  }

  // ----- one request

  /** What was established about a connection before a request was put on it. */
  datatype Vetting = Vetting(heldSince: nat, at: nat, utc: int, conn: Conn)

  datatype SendOutcome = InProgress | Responded | Unsent | Broken

  datatype Attempt = Attempt(conn: nat, vetting: Vetting, outcome: SendOutcome)

  /** Where a forwarded request is. */
  datatype RequestAt =
    | CheckingOut
    | AwaitReady(conn: nat, since: nat)
    | Connecting
    | AwaitFresh(conn: nat, since: nat)
    | Ready(conn: nat, vetting: Vetting)
    | Sending(conn: nat)
    | Reconnecting
    | AwaitRetry(conn: nat, since: nat)
    | ReadyRetry(conn: nat, vetting: Vetting)
    | SendingRetry(conn: nat)
    | Reading(conn: nat)
    | Over

  datatype Request = Request(target: nat, at: RequestAt, attempts: seq<Attempt>)

  function Holds(at: RequestAt): Option<nat> {
    match at
    case AwaitReady(c, _) => Some(c)
    case AwaitFresh(c, _) => Some(c)
    case Ready(c, _) => Some(c)
    case Sending(c) => Some(c)
    case AwaitRetry(c, _) => Some(c)
    case ReadyRetry(c, _) => Some(c)
    case SendingRetry(c) => Some(c)
    case Reading(c) => Some(c)
    case _ => None
  }

  // ----- the system

  /** The one place of a connection. */
  datatype Owner = InPool(target: nat) | HeldBy(request: nat) | Retired

  datatype State = State(
    now: nat,
    utc: int,
    conns: map<nat, Conn>,
    owner: map<nat, Owner>,
    idle: map<nat, seq<nat>>,
    requests: map<nat, Request>)

  datatype Step =
    | Clock(now: nat, utc: int)
    | PeerCloses(conn: nat)
    | Arrive(r: nat, target: nat)
    | Take(r: nat)
    | BecomesReady(r: nat, ok: bool)
    | Attest(r: nat, id: nat, ok: bool, since: nat, expiresAt: Option<int>)
    | Send(r: nat)
    | SendResult(r: nat, outcome: SendOutcome)
    | Body(r: nat, event: BodyEvent)
    | Cancel(r: nat)

  function Usable(s: State, limits: PoolLimits): nat -> bool {
    (id: nat) => id in s.conns && UsableAt(s.conns[id], limits, s.now, s.utc)
  }

  predicate Enabled(s: State, step: Step) {
    match step
    case Clock(now, _) => s.now <= now
    case PeerCloses(c) => c in s.conns
    case Arrive(r, t) => r !in s.requests && t in s.idle
    case Take(r) => r in s.requests && s.requests[r].at.CheckingOut?
    case BecomesReady(r, _) =>
      r in s.requests && (s.requests[r].at.AwaitReady? || s.requests[r].at.AwaitFresh? || s.requests[r].at.AwaitRetry?)
    case Attest(r, id, _, since, _) =>
      && r in s.requests && (s.requests[r].at.Connecting? || s.requests[r].at.Reconnecting?)
      && id !in s.conns && since <= s.now
    case Send(r) => r in s.requests && (s.requests[r].at.Ready? || s.requests[r].at.ReadyRetry?)
    case SendResult(r, outcome) =>
      r in s.requests && (s.requests[r].at.Sending? || s.requests[r].at.SendingRetry?) && !outcome.InProgress?
    case Body(r, _) => r in s.requests && s.requests[r].at.Reading?
    case Cancel(r) => r in s.requests && !s.requests[r].at.Over?
  }

  function At(s: State, r: nat, at: RequestAt): State
    requires r in s.requests
  {
    s.(requests := s.requests[r := s.requests[r].(at := at)])
  }

  /** The request lets go of a connection, which is dropped with its transport. */
  function Retire(s: State, id: nat): State {
    s.(owner := s.owner[id := Retired])
  }

  /** The connections dropped by a sweep of one pool are retired. */
  function SweepPool(s: State, target: nat, kept: seq<nat>): State
    requires target in s.idle
  {
    s.(idle := s.idle[target := kept],
       owner := map id | id in s.owner :: if id in s.idle[target] && id !in kept then Retired else s.owner[id])
  }

  function DoTake(s: State, limits: PoolLimits, r: nat): State
    requires r in s.requests && s.requests[r].target in s.idle
  {
    var t := s.requests[r].target;
    var kept := Retain(s.idle[t], Usable(s, limits));
    var taken := TakeFrom(s.idle[t], Usable(s, limits));
    var swept := SweepPool(s, t, kept);
    if taken.conn.None? then At(swept, r, Connecting)
    else
      var id := taken.conn.value;
      At(swept.(idle := swept.idle[t := taken.idle], owner := swept.owner[id := HeldBy(r)]), r, AwaitReady(id, s.now))
  }

  function DoReady(s: State, limits: PoolLimits, r: nat, ok: bool): State
    requires Enabled(s, BecomesReady(r, ok))
  {
    var at := s.requests[r].at;
    var id := at.conn;
    if ok && Usable(s, limits)(id) then
      var vetting := Vetting(at.since, s.now, s.utc, s.conns[id]);
      At(s, r, if at.AwaitRetry? then ReadyRetry(id, vetting) else Ready(id, vetting))
    else
      At(Retire(s, id), r, if at.AwaitReady? then CheckingOut else Over)
  }

  /** `connect_and_attest`; the age of a connection counts from before its attestation. */
  function DoAttest(s: State, r: nat, id: nat, ok: bool, since: nat, expiresAt: Option<int>): State
    requires Enabled(s, Attest(r, id, ok, since, expiresAt))
  {
    var req := s.requests[r];
    if !ok then At(s, r, Over)
    else
      var conn := Conn(req.target, r, since, None, expiresAt, 0, false);
      At(s.(conns := s.conns[id := conn], owner := s.owner[id := HeldBy(r)]), r,
         if req.at.Connecting? then AwaitFresh(id, s.now) else AwaitRetry(id, s.now))
  }

  function DoSend(s: State, r: nat): State
    requires Enabled(s, Send(r)) && s.requests[r].at.conn in s.conns
  {
    var req := s.requests[r];
    var id := req.at.conn;
    var c := s.conns[id];
    s.(conns := s.conns[id := c.(requests := c.requests + 1)],
       requests := s.requests[r := req.(
         at := if req.at.Ready? then Sending(id) else SendingRetry(id),
         attempts := req.attempts + [Attempt(id, req.at.vetting, InProgress)])])
  }

  function DoSendResult(s: State, r: nat, outcome: SendOutcome): State
    requires Enabled(s, SendResult(r, outcome)) && s.requests[r].attempts != []
  {
    var req := s.requests[r];
    var id, n := req.at.conn, |req.attempts| - 1;
    var done := req.(attempts := req.attempts[n := req.attempts[n].(outcome := outcome)]);
    var t := s.(requests := s.requests[r := done]);
    if outcome.Responded? then At(t, r, Reading(id))
    else At(Retire(t, id), r, if outcome.Unsent? && req.at.Sending? then Reconnecting else Over)
  }

  function DoBody(s: State, limits: PoolLimits, r: nat, event: BodyEvent): State
    requires Enabled(s, Body(r, event)) && s.requests[r].at.conn in s.conns && s.requests[r].target in s.idle
  {
    var id := s.requests[r].at.conn;
    var t := s.requests[r].target;
    match event
    case MoreToCome => s
    case BodyError => At(Retire(s, id), r, Over)
    case FullyRead =>
      var stamped := s.(conns := s.conns[id := s.conns[id].(idleSince := Some(s.now))]);
      var usable := Usable(stamped, limits);
      if !usable(id) then At(Retire(stamped, id), r, Over)
      else
        var kept := Retain(s.idle[t], usable);
        var swept := SweepPool(stamped, t, kept);
        if |kept| < limits.idle then
          At(swept.(idle := swept.idle[t := GivenBack(s.idle[t], id, usable, limits.idle)],
                    owner := swept.owner[id := InPool(t)]), r, Over)
        else At(Retire(swept, id), r, Over)
  }

  function DoCancel(s: State, r: nat): State
    requires Enabled(s, Cancel(r))
  {
    var held := Holds(s.requests[r].at);
    At(if held.Some? then Retire(s, held.value) else s, r, Over)
  }

  // ----- the invariant

  /** What is in a pool is owned by that pool, and by it alone. */
  ghost predicate PoolsAgree(idle: map<nat, seq<nat>>, owner: map<nat, Owner>) {
    forall t, id :: t in idle ==> (id in idle[t] <==> id in owner && owner[id] == InPool(t))
  }

  /** A pool holds connections of its own target. */
  ghost predicate PooledConns(idle: map<nat, seq<nat>>, owner: map<nat, Owner>, conns: map<nat, Conn>) {
    forall id :: id in owner && owner[id].InPool? ==>
      owner[id].target in idle && id in conns && conns[id].target == owner[id].target
  }

  /** What a request holds is owned by that request, and by it alone. */
  ghost predicate HoldersAgree(requests: map<nat, Request>, owner: map<nat, Owner>) {
    && (forall r :: r in requests && Holds(requests[r].at).Some? ==>
          Holds(requests[r].at).value in owner && owner[Holds(requests[r].at).value] == HeldBy(r))
    && (forall id :: id in owner && owner[id].HeldBy? ==>
          owner[id].request in requests && Holds(requests[owner[id].request].at) == Some(id))
  }

  /** Pools, requests and the owner of each connection agree, so a connection is in one place only. */
  ghost predicate OwnersAgree(s: State) {
    && s.owner.Keys == s.conns.Keys
    && PoolsAgree(s.idle, s.owner)
    && PooledConns(s.idle, s.owner, s.conns)
    && HoldersAgree(s.requests, s.owner)
  }

  ghost predicate WithinLimits(s: State, limits: PoolLimits) {
    && (forall t :: t in s.idle ==> NoDup(s.idle[t]) && |s.idle[t]| <= limits.idle)
    && (forall id :: id in s.conns ==> s.conns[id].requests <= limits.requests)
  }

  /** The connection was attested for the target and found usable while the request held it. */
  predicate Vetted(v: Vetting, limits: PoolLimits, target: nat, now: nat) {
    UsableAt(v.conn, limits, v.at, v.utc) && v.conn.target == target && v.heldSince <= v.at <= now
  }

  /** At most two attempts, the second only after the first came back unsent, on a connection new to all. */
  ghost predicate AttemptsOk(s: State, limits: PoolLimits, r: nat, req: Request) {
    && |req.attempts| <= 2
    && (forall k :: 0 <= k < |req.attempts| ==>
          req.attempts[k].conn in s.conns && Vetted(req.attempts[k].vetting, limits, req.target, s.now))
    && (|req.attempts| == 2 ==>
          && req.attempts[0].outcome.Unsent?
          && req.attempts[0].conn != req.attempts[1].conn
          && NewFor(req.attempts[1].vetting.conn, r))
  }

  predicate NewFor(c: Conn, r: nat) {
    c.attestedBy == r && c.requests == 0
  }

  ghost predicate UnsentOnce(req: Request) {
    |req.attempts| == 1 && req.attempts[0].outcome.Unsent?
  }

  /** What goes with each place in the forwarding of a request. */
  ghost predicate PlaceOk(s: State, limits: PoolLimits, r: nat, req: Request) {
    match req.at
    case CheckingOut => req.attempts == []
    case AwaitReady(_, since) => req.attempts == [] && since <= s.now
    case Connecting => req.attempts == []
    case AwaitFresh(_, since) => req.attempts == [] && since <= s.now
    case Ready(c, v) =>
      && req.attempts == [] && Vetted(v, limits, req.target, s.now)
      && c in s.conns && s.conns[c].requests < limits.requests
    case Sending(c) => |req.attempts| == 1 && req.attempts[0].conn == c && req.attempts[0].outcome.InProgress?
    case Reconnecting => UnsentOnce(req)
    case AwaitRetry(c, since) =>
      UnsentOnce(req) && since <= s.now && c in s.conns && NewFor(s.conns[c], r) && req.attempts[0].conn != c
    case ReadyRetry(c, v) =>
      && UnsentOnce(req) && Vetted(v, limits, req.target, s.now) && NewFor(v.conn, r)
      && req.attempts[0].conn != c && c in s.conns && s.conns[c].requests < limits.requests
    case SendingRetry(c) => |req.attempts| == 2 && req.attempts[1].conn == c && req.attempts[1].outcome.InProgress?
    case Reading(c) =>
      && req.attempts != []
      && req.attempts[|req.attempts| - 1].conn == c && req.attempts[|req.attempts| - 1].outcome.Responded?
    case Over => true
  }

  ghost predicate RequestOk(s: State, limits: PoolLimits, r: nat, req: Request) {
    && req.target in s.idle
    && (Holds(req.at).Some? ==> Holds(req.at).value in s.conns && s.conns[Holds(req.at).value].target == req.target)
    && AttemptsOk(s, limits, r, req)
    && PlaceOk(s, limits, r, req)
  }

  ghost predicate RequestsOk(s: State, limits: PoolLimits) {
    forall r :: r in s.requests ==> RequestOk(s, limits, r, s.requests[r])
  }

  ghost predicate Inv(s: State, limits: PoolLimits) {
    OwnersAgree(s) && WithinLimits(s, limits) && RequestsOk(s, limits)
  }

  function Do(s: State, limits: PoolLimits, step: Step): State
    requires Inv(s, limits) && Enabled(s, step)
  {
    match step
    case Clock(now, utc) => s.(now := now, utc := utc)
    case PeerCloses(c) => s.(conns := s.conns[c := s.conns[c].(closed := true)])
    case Arrive(r, target) => s.(requests := s.requests[r := Request(target, CheckingOut, [])])
    case Take(r) => assert RequestOk(s, limits, r, s.requests[r]); DoTake(s, limits, r)
    case BecomesReady(r, ok) => DoReady(s, limits, r, ok)
    case Attest(r, id, ok, since, expiresAt) => DoAttest(s, r, id, ok, since, expiresAt)
    case Send(r) => assert RequestOk(s, limits, r, s.requests[r]); DoSend(s, r)
    case SendResult(r, outcome) => assert RequestOk(s, limits, r, s.requests[r]); DoSendResult(s, r, outcome)
    case Body(r, event) => assert RequestOk(s, limits, r, s.requests[r]); DoBody(s, limits, r, event)
    case Cancel(r) => DoCancel(s, r)
  }

  /** All that another request's standing depends on is kept: connections it may name, pools, the clock. */
  ghost predicate Evolves(s: State, t: State, x: nat) {
    && s.now <= t.now
    && t.idle.Keys == s.idle.Keys
    && (forall id :: id in s.conns ==> id in t.conns)
    && (forall id :: id in s.conns && id != x ==> SameUse(s.conns[id], t.conns[id]))
  }

  predicate SameUse(c: Conn, d: Conn) {
    c.target == d.target && c.attestedBy == d.attestedBy && c.requests == d.requests
  }

  lemma OtherRequestOk(s: State, t: State, limits: PoolLimits, q: nat, req: Request, x: nat)
    requires RequestOk(s, limits, q, req) && Evolves(s, t, x) && Holds(req.at) != Some(x)
    ensures RequestOk(t, limits, q, req)
  {
    hide UsableAt;
    OtherAttemptsOk(s, t, limits, q, req, x);
  }

  lemma OtherAttemptsOk(s: State, t: State, limits: PoolLimits, q: nat, req: Request, x: nat)
    requires AttemptsOk(s, limits, q, req) && Evolves(s, t, x)
    ensures AttemptsOk(t, limits, q, req)
  {
    hide UsableAt;
    forall k | 0 <= k < |req.attempts|
      ensures req.attempts[k].conn in t.conns && Vetted(req.attempts[k].vetting, limits, req.target, t.now)
    {
      assert req.attempts[k].conn in s.conns;
    }
  }

  /** Requests other than r stand as before when only r and the connection x it holds are touched. */
  lemma OthersKeep(s: State, t: State, limits: PoolLimits, r: nat, x: nat)
    requires OwnersAgree(s) && RequestsOk(s, limits) && Evolves(s, t, x)
    requires r in t.requests && RequestOk(t, limits, r, t.requests[r])
    requires forall q :: q in t.requests && q != r ==> q in s.requests && t.requests[q] == s.requests[q]
    requires forall q :: q in s.requests && q != r ==> Holds(s.requests[q].at) != Some(x)
    ensures RequestsOk(t, limits)
  {
    hide RequestOk, OwnersAgree, Evolves;
    forall q | q in t.requests
      ensures RequestOk(t, limits, q, t.requests[q])
    {
      if q != r {
        OtherRequestOk(s, t, limits, q, s.requests[q], x);
      }
    }
  }

  lemma HeldByOne(s: State, r: nat, id: nat)
    requires OwnersAgree(s) && r in s.requests && Holds(s.requests[r].at) == Some(id)
    ensures forall q :: q in s.requests && q != r ==> Holds(s.requests[q].at) != Some(id)
  {
    hide PoolsAgree, PooledConns;
  }

  /** Request r goes from the connection it held, if any, to one that no other request holds, if any. */
  lemma HoldersStep(requests: map<nat, Request>, owner: map<nat, Owner>, r: nat, req: Request, next: map<nat, Owner>)
    requires HoldersAgree(requests, owner) && owner.Keys <= next.Keys
    requires forall x ::
               x in owner && (r !in requests || Holds(requests[r].at) != Some(x)) && Holds(req.at) != Some(x) ==>
               next[x] == owner[x]
    requires forall x :: x in next && x !in owner ==> Holds(req.at) == Some(x)
    requires Holds(req.at).Some? ==>
               var id := Holds(req.at).value;
               && id in next && next[id] == HeldBy(r)
               && (id in owner && owner[id].HeldBy? ==> owner[id] == HeldBy(r))
    requires r in requests && Holds(requests[r].at).Some? && Holds(req.at) != Holds(requests[r].at) ==>
               var id := Holds(requests[r].at).value; id in next && !next[id].HeldBy?
    ensures HoldersAgree(requests[r := req], next)
  {
  }

  /** The request moves on with the connection it holds. */
  lemma MoveKeeps(s: State, t: State, limits: PoolLimits, r: nat, x: nat)
    requires Inv(s, limits) && r in s.requests && Holds(s.requests[r].at) == Some(x)
    requires t.owner == s.owner && t.idle == s.idle && t.conns.Keys == s.conns.Keys
    requires t.requests.Keys == s.requests.Keys && Holds(t.requests[r].at) == Some(x)
    requires forall q :: q in s.requests && q != r ==> t.requests[q] == s.requests[q]
    requires Evolves(s, t, x) && t.conns[x].target == s.conns[x].target && t.conns[x].requests <= limits.requests
    requires RequestOk(t, limits, r, t.requests[r])
    ensures Inv(t, limits)
  {
    hide RequestOk;
    HeldByOne(s, r, x);
    OthersKeep(s, t, limits, r, x);
    hide RequestsOk;
    assert OwnersAgree(t);
    assert WithinLimits(t, limits);
  }

  lemma ClockKeeps(s: State, limits: PoolLimits, now: nat, utc: int)
    requires Inv(s, limits) && s.now <= now
    ensures Inv(s.(now := now, utc := utc), limits)
  {
    var t := s.(now := now, utc := utc);
    forall r | r in t.requests
      ensures RequestOk(t, limits, r, t.requests[r])
    {
      assert RequestOk(s, limits, r, s.requests[r]);
    }
  }

  lemma CloseKeeps(s: State, limits: PoolLimits, c: nat)
    requires Inv(s, limits) && c in s.conns
    ensures Inv(s.(conns := s.conns[c := s.conns[c].(closed := true)]), limits)
  {
    hide UsableAt;
    var t := s.(conns := s.conns[c := s.conns[c].(closed := true)]);
    assert t.conns.Keys == s.conns.Keys;
    ClosedRequests(s, t, limits, c);
    hide RequestsOk;
    assert OwnersAgree(t);
  }

  lemma ClosedRequests(s: State, t: State, limits: PoolLimits, c: nat)
    requires RequestsOk(s, limits) && c in s.conns && t == s.(conns := s.conns[c := s.conns[c].(closed := true)])
    ensures RequestsOk(t, limits)
  {
    hide UsableAt;
    forall r | r in t.requests
      ensures RequestOk(t, limits, r, t.requests[r])
    {
      assert RequestOk(s, limits, r, s.requests[r]);
      OtherAttemptsOk(s, t, limits, r, s.requests[r], c);
    }
  }

  lemma ArriveKeeps(s: State, limits: PoolLimits, r: nat, target: nat)
    requires Inv(s, limits) && r !in s.requests && target in s.idle
    ensures Inv(s.(requests := s.requests[r := Request(target, CheckingOut, [])]), limits)
  {
    hide RequestsOk, UsableAt;
    var t := s.(requests := s.requests[r := Request(target, CheckingOut, [])]);
    assert RequestOk(s, limits, r, t.requests[r]);
    hide RequestOk;
    SameConnsKeep(s, t, limits, r);
  }

  /** A request that lets its connection go, or never had one, moves on without one. */
  lemma LetGoKeeps(s: State, limits: PoolLimits, r: nat, req: Request)
    requires Inv(s, limits) && r in s.requests && Holds(req.at).None?
    requires RequestOk(s, limits, r, req)
    ensures var held := Holds(s.requests[r].at);
            Inv((if held.Some? then Retire(s, held.value) else s).(requests := s.requests[r := req]), limits)
  {
    hide RequestsOk, RequestOk, OwnersAgree, WithinLimits, UsableAt;
    var held := Holds(s.requests[r].at);
    var t := (if held.Some? then Retire(s, held.value) else s).(requests := s.requests[r := req]);
    LetGoOwners(s, t, limits, r, req);
    SameConnsKeep(s, t, limits, r);
  }

  lemma LetGoOwners(s: State, t: State, limits: PoolLimits, r: nat, req: Request)
    requires OwnersAgree(s) && WithinLimits(s, limits) && r in s.requests && Holds(req.at).None?
    requires var held := Holds(s.requests[r].at);
             t == (if held.Some? then Retire(s, held.value) else s).(requests := s.requests[r := req])
    ensures OwnersAgree(t) && WithinLimits(t, limits)
  {
    var held := Holds(s.requests[r].at);
    assert held.Some? ==> held.value in s.owner && s.owner[held.value] == HeldBy(r);
    HoldersStep(s.requests, s.owner, r, req, t.owner);
    hide HoldersAgree, WithinLimits;
    assert t.owner.Keys == s.owner.Keys;
  }

  /** Nothing but one request's own record changed. */
  lemma SameConnsKeep(s: State, t: State, limits: PoolLimits, r: nat)
    requires RequestsOk(s, limits) && t.conns == s.conns && t.idle.Keys == s.idle.Keys && t.now == s.now
    requires r in t.requests && RequestOk(s, limits, r, t.requests[r])
    requires forall q :: q in t.requests && q != r ==> q in s.requests && t.requests[q] == s.requests[q]
    ensures RequestsOk(t, limits)
  {
    hide UsableAt, PlaceOk, AttemptsOk;
    forall q | q in t.requests
      ensures RequestOk(t, limits, q, t.requests[q])
    {
      assert RequestOk(s, limits, q, t.requests[q]);
      OtherRequestOkSelf(s, t, limits, q, t.requests[q]);
    }
  }

  lemma ReadyKeeps(s: State, limits: PoolLimits, r: nat, ok: bool)
    requires Inv(s, limits) && Enabled(s, BecomesReady(r, ok))
    ensures Inv(DoReady(s, limits, r, ok), limits)
  {
    hide RequestOk, RequestsOk, OwnersAgree, WithinLimits;
    var req := s.requests[r];
    HolderOk(s, limits, r);
    var id := req.at.conn;
    var t := DoReady(s, limits, r, ok);
    if ok && Usable(s, limits)(id) {
      assert t.requests.Keys == s.requests.Keys;
      VettedNow(s, t, limits, r, ok);
      MoveKeeps(s, t, limits, r, id);
    } else {
      var next := req.(at := if req.at.AwaitReady? then CheckingOut else Over);
      GivesUp(s, limits, r, next);
      LetGoKeeps(s, limits, r, next);
    }
  }

  lemma HolderOk(s: State, limits: PoolLimits, r: nat)
    requires Inv(s, limits) && r in s.requests
    ensures RequestOk(s, limits, r, s.requests[r])
    ensures Holds(s.requests[r].at).Some? ==>
              var id := Holds(s.requests[r].at).value; id in s.conns && s.conns[id].requests <= limits.requests
  {
    assert RequestOk(s, limits, r, s.requests[r]);
  }

  lemma GivesUp(s: State, limits: PoolLimits, r: nat, next: Request)
    requires r in s.requests && RequestOk(s, limits, r, s.requests[r])
    requires || next == s.requests[r].(at := Over)
             || (s.requests[r].at.AwaitReady? && next == s.requests[r].(at := CheckingOut))
    ensures RequestOk(s, limits, r, next)
  {
    hide UsableAt;
  }

  lemma VettedNow(s: State, t: State, limits: PoolLimits, r: nat, ok: bool)
    requires Enabled(s, BecomesReady(r, ok)) && RequestOk(s, limits, r, s.requests[r])
    requires ok && Usable(s, limits)(s.requests[r].at.conn) && t == DoReady(s, limits, r, ok)
    ensures Evolves(s, t, s.requests[r].at.conn) && RequestOk(t, limits, r, t.requests[r])
  {
    assert AttemptsOk(t, limits, r, t.requests[r]);
    assert PlaceOk(t, limits, r, t.requests[r]);
  }

  lemma CancelKeeps(s: State, limits: PoolLimits, r: nat)
    requires Inv(s, limits) && Enabled(s, Cancel(r))
    ensures Inv(DoCancel(s, r), limits)
  {
    assert RequestOk(s, limits, r, s.requests[r]);
    LetGoKeeps(s, limits, r, s.requests[r].(at := Over));
  }

  lemma AttestKeeps(s: State, limits: PoolLimits, r: nat, id: nat, ok: bool, since: nat, expiresAt: Option<int>)
    requires Inv(s, limits) && Enabled(s, Attest(r, id, ok, since, expiresAt))
    ensures Inv(DoAttest(s, r, id, ok, since, expiresAt), limits)
  {
    hide RequestOk, RequestsOk, OwnersAgree, WithinLimits;
    var req := s.requests[r];
    HolderOk(s, limits, r);
    if !ok {
      GivesUp(s, limits, r, req.(at := Over));
      LetGoKeeps(s, limits, r, req.(at := Over));
    } else {
      var t := DoAttest(s, r, id, ok, since, expiresAt);
      NewConnectionOk(s, t, limits, r, id, since, expiresAt);
      NewOwnerAgrees(s, t, limits, r, id, since, expiresAt);
      OthersKeep(s, t, limits, r, id);
    }
  }

  lemma NewConnectionOk(s: State, t: State, limits: PoolLimits, r: nat, id: nat, since: nat, expiresAt: Option<int>)
    requires Enabled(s, Attest(r, id, true, since, expiresAt)) && RequestOk(s, limits, r, s.requests[r])
    requires t == DoAttest(s, r, id, true, since, expiresAt)
    ensures Evolves(s, t, id) && RequestOk(t, limits, r, t.requests[r])
  {
    hide UsableAt;
    OtherAttemptsOk(s, t, limits, r, s.requests[r], id);
    assert AttemptsOk(t, limits, r, t.requests[r]);
    assert PlaceOk(t, limits, r, t.requests[r]);
  }

  lemma NewOwnerAgrees(s: State, t: State, limits: PoolLimits, r: nat, id: nat, since: nat, expiresAt: Option<int>)
    requires OwnersAgree(s) && WithinLimits(s, limits) && Enabled(s, Attest(r, id, true, since, expiresAt))
    requires t == DoAttest(s, r, id, true, since, expiresAt)
    ensures OwnersAgree(t) && WithinLimits(t, limits)
    ensures forall q :: q in s.requests && q != r ==> Holds(s.requests[q].at) != Some(id)
  {
    NewHolder(s, r, id, t.requests[r], t.owner);
    NewInPools(s, t.owner, t.conns, r, id);
    hide OwnersAgree, HoldersAgree, PoolsAgree, PooledConns, NoDup;
    assert OwnersAgree(t) by {
      assert s.owner.Keys == s.conns.Keys by {
        NewInPools(s, t.owner, t.conns, r, id);
      }
      assert t.conns.Keys == t.owner.Keys;
      OwnersFrom(t);
    }
  }

  lemma OwnersFrom(s: State)
    requires s.owner.Keys == s.conns.Keys && PoolsAgree(s.idle, s.owner) && PooledConns(s.idle, s.owner, s.conns)
    requires HoldersAgree(s.requests, s.owner)
    ensures OwnersAgree(s)
  {
  }

  lemma NewHolder(s: State, r: nat, id: nat, req: Request, owner: map<nat, Owner>)
    requires OwnersAgree(s) && id !in s.conns && r in s.requests && Holds(s.requests[r].at).None?
    requires Holds(req.at) == Some(id) && owner == s.owner[id := HeldBy(r)]
    ensures HoldersAgree(s.requests[r := req], owner)
    ensures forall q :: q in s.requests ==> Holds(s.requests[q].at) != Some(id)
  {
    hide PoolsAgree, PooledConns;
    HoldersStep(s.requests, s.owner, r, req, owner);
  }

  lemma NewInPools(s: State, owner: map<nat, Owner>, conns: map<nat, Conn>, r: nat, id: nat)
    requires OwnersAgree(s) && id !in s.conns && owner == s.owner[id := HeldBy(r)]
    requires id in conns && conns == s.conns[id := conns[id]]
    ensures s.owner.Keys == s.conns.Keys
    ensures PoolsAgree(s.idle, owner) && PooledConns(s.idle, owner, conns)
  {
    hide HoldersAgree;
  }

  lemma SendKeeps(s: State, limits: PoolLimits, r: nat)
    requires Inv(s, limits) && Enabled(s, Send(r)) && s.requests[r].at.conn in s.conns
    ensures Inv(DoSend(s, r), limits)
  {
    hide RequestsOk, RequestOk, OwnersAgree, WithinLimits, UsableAt;
    var id := s.requests[r].at.conn;
    HolderOk(s, limits, r);
    var t := DoSend(s, r);
    assert t.conns.Keys == s.conns.Keys && t.requests.Keys == s.requests.Keys;
    SentAttempts(s, t, limits, r);
    MoveKeeps(s, t, limits, r, id);
  }

  lemma SentAttempts(s: State, t: State, limits: PoolLimits, r: nat)
    requires Enabled(s, Send(r)) && s.requests[r].at.conn in s.conns && RequestOk(s, limits, r, s.requests[r])
    requires t == DoSend(s, r)
    ensures RequestOk(t, limits, r, t.requests[r])
    ensures t.conns[s.requests[r].at.conn].requests <= limits.requests
  {
    hide UsableAt;
    assert AttemptsOk(t, limits, r, t.requests[r]);
    assert PlaceOk(t, limits, r, t.requests[r]);
  }

  lemma ResultKeeps(s: State, limits: PoolLimits, r: nat, outcome: SendOutcome)
    requires Inv(s, limits) && Enabled(s, SendResult(r, outcome)) && s.requests[r].attempts != []
    ensures Inv(DoSendResult(s, r, outcome), limits)
  {
    hide RequestsOk, RequestOk, OwnersAgree, WithinLimits, UsableAt;
    var req := s.requests[r];
    HolderOk(s, limits, r);
    var id, n := req.at.conn, |req.attempts| - 1;
    var next := req.(
      attempts := req.attempts[n := req.attempts[n].(outcome := outcome)],
      at := if outcome.Responded? then Reading(id)
            else if outcome.Unsent? && req.at.Sending? then Reconnecting
            else Over);
    var t := DoSendResult(s, r, outcome);
    assert t.requests == s.requests[r := next];
    DoneAttempts(s, limits, r, req, outcome, next);
    if outcome.Responded? {
      OtherRequestOkSelf(s, t, limits, r, next);
      MoveKeeps(s, t, limits, r, id);
    } else {
      LetGoKeeps(s, limits, r, next);
    }
  }

  lemma OtherRequestOkSelf(s: State, t: State, limits: PoolLimits, r: nat, req: Request)
    requires RequestOk(s, limits, r, req) && t.conns == s.conns && t.idle.Keys == s.idle.Keys && t.now == s.now
    ensures RequestOk(t, limits, r, req)
  {
    hide UsableAt;
  }

  lemma DoneAttempts(s: State, limits: PoolLimits, r: nat, req: Request, outcome: SendOutcome, next: Request)
    requires RequestOk(s, limits, r, req) && (req.at.Sending? || req.at.SendingRetry?) && !outcome.InProgress?
    requires var n := |req.attempts| - 1;
             n >= 0 &&
             next == req.(attempts := req.attempts[n := req.attempts[n].(outcome := outcome)],
                          at := if outcome.Responded? then Reading(req.at.conn)
                                else if outcome.Unsent? && req.at.Sending? then Reconnecting else Over)
    ensures RequestOk(s, limits, r, next)
  {
    hide UsableAt;
    assert AttemptsOk(s, limits, r, next);
    assert PlaceOk(s, limits, r, next);
  }

  /** A sweep of one pool retires exactly what it drops. */
  lemma SweepKeeps(s: State, limits: PoolLimits, target: nat, usable: nat -> bool)
    requires Inv(s, limits) && target in s.idle
    ensures Inv(SweepPool(s, target, Retain(s.idle[target], usable)), limits)
  {
    var kept := Retain(s.idle[target], usable);
    var t := SweepPool(s, target, kept);
    RetainFacts(s.idle[target], usable);
    assert t.idle.Keys == s.idle.Keys && t.owner.Keys == s.owner.Keys;
    SweptRequests(s, t, limits);
    hide RequestsOk;
    SweptOwners(s, target, kept);
  }

  lemma SweptRequests(s: State, t: State, limits: PoolLimits)
    requires RequestsOk(s, limits) && t.conns == s.conns && t.idle.Keys == s.idle.Keys && t.now == s.now
    requires t.requests == s.requests
    ensures RequestsOk(t, limits)
  {
    hide UsableAt;
    forall r | r in t.requests
      ensures RequestOk(t, limits, r, t.requests[r])
    {
      assert RequestOk(s, limits, r, s.requests[r]);
    }
  }

  lemma SweptOwners(s: State, target: nat, kept: seq<nat>)
    requires OwnersAgree(s) && target in s.idle && forall x :: x in kept ==> x in s.idle[target]
    ensures OwnersAgree(SweepPool(s, target, kept))
  {
    var t := SweepPool(s, target, kept);
    assert t.owner.Keys == s.owner.Keys;
    forall id | id in s.owner
      ensures s.owner[id] != InPool(target) ==> t.owner[id] == s.owner[id]
    {
      assert id in s.idle[target] <==> s.owner[id] == InPool(target);
    }
    forall u, id | u in t.idle
      ensures id in t.idle[u] <==> id in t.owner && t.owner[id] == InPool(u)
    {
      assert id in s.idle[u] <==> id in s.owner && s.owner[id] == InPool(u);
    }
  }

  /** The last idle connection of a pool goes to a request that holds none. */
  lemma LendKeeps(s: State, limits: PoolLimits, r: nat, rest: seq<nat>, id: nat)
    requires Inv(s, limits) && r in s.requests && s.requests[r].at.CheckingOut?
    requires s.requests[r].target in s.idle && s.idle[s.requests[r].target] == rest + [id]
    ensures var t := s.requests[r].target;
            Inv(At(s.(idle := s.idle[t := rest], owner := s.owner[id := HeldBy(r)]), r, AwaitReady(id, s.now)), limits)
  {
    var target := s.requests[r].target;
    var t := At(s.(idle := s.idle[target := rest], owner := s.owner[id := HeldBy(r)]), r, AwaitReady(id, s.now));
    HolderOk(s, limits, r);
    LentOwners(s, t, limits, r, rest, id);
    assert RequestOk(t, limits, r, t.requests[r]) by {
      hide UsableAt;
      assert AttemptsOk(t, limits, r, t.requests[r]);
    }
    hide RequestOk;
    assert Evolves(s, t, id);
    OthersKeep(s, t, limits, r, id);
  }

  lemma WithoutLast(rest: seq<nat>, id: nat)
    requires NoDup(rest + [id])
    ensures NoDup(rest) && id !in rest
  {
    var all := rest + [id];
    assert forall k :: 0 <= k < |rest| ==> all[k] == rest[k];
    assert all[|rest|] == id;
  }

  lemma LentOwners(s: State, t: State, limits: PoolLimits, r: nat, rest: seq<nat>, id: nat)
    requires OwnersAgree(s) && WithinLimits(s, limits) && r in s.requests && s.requests[r].at.CheckingOut?
    requires s.requests[r].target in s.idle && s.idle[s.requests[r].target] == rest + [id]
    requires t == At(s.(idle := s.idle[s.requests[r].target := rest], owner := s.owner[id := HeldBy(r)]),
                     r, AwaitReady(id, s.now))
    ensures OwnersAgree(t) && WithinLimits(t, limits)
    ensures id in s.conns && s.conns[id].target == s.requests[r].target
    ensures forall q :: q in s.requests && q != r ==> Holds(s.requests[q].at) != Some(id)
  {
    hide OwnersAgree, WithinLimits, PoolsAgree, PooledConns, HoldersAgree, NoDup;
    LentFrom(s, limits, r, rest, id);
    LentHolder(s, r, id, t.requests[r], t.owner);
    LentPools(s.idle, s.owner, s.requests[r].target, rest, id, r);
    LentConns(s, r, rest, id);
    LentWithin(s, t, limits, r, rest, id);
    assert t.owner.Keys == s.owner.Keys;
    OwnersFrom(t);
  }

  lemma LentFrom(s: State, limits: PoolLimits, r: nat, rest: seq<nat>, id: nat)
    requires OwnersAgree(s) && WithinLimits(s, limits) && r in s.requests
    requires s.requests[r].target in s.idle && s.idle[s.requests[r].target] == rest + [id]
    ensures s.owner.Keys == s.conns.Keys && id in s.owner && s.owner[id] == InPool(s.requests[r].target)
    ensures id in s.conns && s.conns[id].target == s.requests[r].target
    ensures NoDup(rest + [id]) && PoolsAgree(s.idle, s.owner)
  {
    hide HoldersAgree, NoDup;
    assert id in s.idle[s.requests[r].target];
  }

  lemma LentHolder(s: State, r: nat, id: nat, req: Request, owner: map<nat, Owner>)
    requires OwnersAgree(s) && r in s.requests && Holds(s.requests[r].at).None?
    requires id in s.owner && s.owner[id].InPool? && Holds(req.at) == Some(id) && owner == s.owner[id := HeldBy(r)]
    ensures HoldersAgree(s.requests[r := req], owner)
    ensures forall q :: q in s.requests ==> Holds(s.requests[q].at) != Some(id)
  {
    hide PoolsAgree, PooledConns;
    HoldersStep(s.requests, s.owner, r, req, owner);
  }

  lemma LentConns(s: State, r: nat, rest: seq<nat>, id: nat)
    requires OwnersAgree(s) && r in s.requests && s.requests[r].target in s.idle
    ensures PooledConns(s.idle[s.requests[r].target := rest], s.owner[id := HeldBy(r)], s.conns)
  {
    hide PoolsAgree, HoldersAgree;
  }

  lemma LentWithin(s: State, t: State, limits: PoolLimits, r: nat, rest: seq<nat>, id: nat)
    requires WithinLimits(s, limits) && r in s.requests && s.requests[r].target in s.idle
    requires s.idle[s.requests[r].target] == rest + [id]
    requires t.idle == s.idle[s.requests[r].target := rest] && t.conns == s.conns
    ensures WithinLimits(t, limits)
  {
    WithoutLast(rest, id);
    hide NoDup;
  }

  lemma LentPools(idle: map<nat, seq<nat>>, owner: map<nat, Owner>, target: nat, rest: seq<nat>, id: nat, r: nat)
    requires PoolsAgree(idle, owner) && target in idle && idle[target] == rest + [id] && NoDup(rest + [id])
    ensures PoolsAgree(idle[target := rest], owner[id := HeldBy(r)])
  {
    WithoutLast(rest, id);
    assert id in idle[target];
    var lent, left := owner[id := HeldBy(r)], idle[target := rest];
    forall u, x | u in left
      ensures x in left[u] <==> x in lent && lent[x] == InPool(u)
    {
      assert x in idle[u] <==> x in owner && owner[x] == InPool(u);
    }
  }

  lemma TakeKeeps(s: State, limits: PoolLimits, r: nat)
    requires Inv(s, limits) && Enabled(s, Take(r)) && s.requests[r].target in s.idle
    ensures Inv(DoTake(s, limits, r), limits)
  {
    hide OwnersAgree, WithinLimits, RequestsOk, UsableAt, Usable;
    var target := s.requests[r].target;
    var usable := Usable(s, limits);
    var kept := Retain(s.idle[target], usable);
    var swept := SweepPool(s, target, kept);
    SweepKeeps(s, limits, target, usable);
    HolderOk(swept, limits, r);
    if kept == [] {
      ConnectsNext(swept, limits, r);
      LetGoKeeps(swept, limits, r, swept.requests[r].(at := Connecting));
    } else {
      var rest, id := kept[..|kept| - 1], kept[|kept| - 1];
      assert kept == rest + [id];
      LendKeeps(swept, limits, r, rest, id);
    }
  }

  lemma ConnectsNext(s: State, limits: PoolLimits, r: nat)
    requires r in s.requests && RequestOk(s, limits, r, s.requests[r]) && s.requests[r].at.CheckingOut?
    ensures RequestOk(s, limits, r, s.requests[r].(at := Connecting))
  {
    hide UsableAt;
  }

  /** A fully read body gives its connection back to the pool. */
  lemma ReturnKeeps(s: State, limits: PoolLimits, r: nat, id: nat)
    requires Inv(s, limits) && r in s.requests && Holds(s.requests[r].at) == Some(id)
    requires s.requests[r].target in s.idle && |s.idle[s.requests[r].target]| < limits.idle
    ensures var t := s.requests[r].target;
            Inv(At(s.(idle := s.idle[t := s.idle[t] + [id]], owner := s.owner[id := InPool(t)]), r, Over), limits)
  {
    var target := s.requests[r].target;
    var t := At(s.(idle := s.idle[target := s.idle[target] + [id]], owner := s.owner[id := InPool(target)]), r, Over);
    HolderOk(s, limits, r);
    ReturnedOwners(s, t, limits, r, id);
    assert RequestOk(t, limits, r, t.requests[r]) by {
      hide UsableAt;
      assert AttemptsOk(t, limits, r, t.requests[r]);
    }
    hide RequestOk;
    assert Evolves(s, t, id);
    HeldByOne(s, r, id);
    OthersKeep(s, t, limits, r, id);
  }

  lemma ReturnedOwners(s: State, t: State, limits: PoolLimits, r: nat, id: nat)
    requires OwnersAgree(s) && WithinLimits(s, limits) && r in s.requests && Holds(s.requests[r].at) == Some(id)
    requires s.requests[r].target in s.idle && id in s.conns && s.conns[id].target == s.requests[r].target
    requires |s.idle[s.requests[r].target]| < limits.idle
    requires var g := s.requests[r].target;
             t == At(s.(idle := s.idle[g := s.idle[g] + [id]], owner := s.owner[id := InPool(g)]), r, Over)
    ensures OwnersAgree(t) && WithinLimits(t, limits)
  {
    var target := s.requests[r].target;
    assert s.owner[id] == HeldBy(r);
    assert id !in s.idle[target];
    HoldersStep(s.requests, s.owner, r, t.requests[r], t.owner);
    hide HoldersAgree;
    assert t.owner.Keys == s.owner.Keys;
    ReturnedPools(s.idle, s.owner, target, id);
    hide PoolsAgree;
    AppendNew(s.idle[target], id);
    hide NoDup;
  }

  lemma ReturnedPools(idle: map<nat, seq<nat>>, owner: map<nat, Owner>, target: nat, id: nat)
    requires PoolsAgree(idle, owner) && target in idle && id in owner && !owner[id].InPool?
    ensures PoolsAgree(idle[target := idle[target] + [id]], owner[id := InPool(target)])
  {
    var next, filled := owner[id := InPool(target)], idle[target := idle[target] + [id]];
    forall u, x | u in filled
      ensures x in filled[u] <==> x in next && next[x] == InPool(u)
    {
      assert x in idle[u] <==> x in owner && owner[x] == InPool(u);
    }
  }

  lemma AppendNew(s: seq<nat>, x: nat)
    requires NoDup(s) && x !in s
    ensures NoDup(s + [x])
  {
  }

  /** Stamping the idle time of a held connection changes nothing else. */
  lemma StampKeeps(s: State, limits: PoolLimits, r: nat, id: nat)
    requires Inv(s, limits) && r in s.requests && Holds(s.requests[r].at) == Some(id) && id in s.conns
    requires s.requests[r].at.Reading?
    ensures Inv(s.(conns := s.conns[id := s.conns[id].(idleSince := Some(s.now))]), limits)
  {
    var t := s.(conns := s.conns[id := s.conns[id].(idleSince := Some(s.now))]);
    HolderOk(s, limits, r);
    assert t.conns.Keys == s.conns.Keys;
    assert Evolves(s, t, id);
    OtherAttemptsOk(s, t, limits, r, s.requests[r], id);
    assert RequestOk(t, limits, r, t.requests[r]);
    hide RequestOk;
    MoveKeeps(s, t, limits, r, id);
  }

  lemma BodyKeeps(s: State, limits: PoolLimits, r: nat, event: BodyEvent)
    requires Inv(s, limits) && Enabled(s, Body(r, event)) && s.requests[r].at.conn in s.conns
    requires s.requests[r].target in s.idle
    ensures Inv(DoBody(s, limits, r, event), limits)
  {
    hide OwnersAgree, WithinLimits, RequestsOk, UsableAt, RequestOk;
    var id, target := s.requests[r].at.conn, s.requests[r].target;
    match event
    case MoreToCome =>
    case BodyError =>
      HolderOk(s, limits, r);
      GivesUp(s, limits, r, s.requests[r].(at := Over));
      LetGoKeeps(s, limits, r, s.requests[r].(at := Over));
    case FullyRead =>
      StampKeeps(s, limits, r, id);
      var stamped := s.(conns := s.conns[id := s.conns[id].(idleSince := Some(s.now))]);
      var usable := Usable(stamped, limits);
      if !usable(id) {
        HolderOk(stamped, limits, r);
        GivesUp(stamped, limits, r, s.requests[r].(at := Over));
        LetGoKeeps(stamped, limits, r, s.requests[r].(at := Over));
      } else {
        hide Usable;
        var kept := Retain(s.idle[target], usable);
        var swept := SweepPool(stamped, target, kept);
        SweepKeeps(stamped, limits, target, usable);
        if |kept| < limits.idle {
          ReturnKeeps(swept, limits, r, id);
        } else {
          HolderOk(swept, limits, r);
          GivesUp(swept, limits, r, s.requests[r].(at := Over));
          LetGoKeeps(swept, limits, r, s.requests[r].(at := Over));
        }
      }
  }

  /** Every step of every request, peer and clock keeps the invariant. */
  lemma StepKeepsInv(s: State, limits: PoolLimits, step: Step)
    requires Inv(s, limits) && Enabled(s, step)
    ensures Inv(Do(s, limits, step), limits)
  {
    hide OwnersAgree, WithinLimits, RequestsOk, UsableAt, DoTake, DoReady, DoAttest, DoSend, DoSendResult, DoBody,
         DoCancel;
    match step
    case Clock(now, utc) => ClockKeeps(s, limits, now, utc);
    case PeerCloses(c) => CloseKeeps(s, limits, c);
    case Arrive(r, target) => ArriveKeeps(s, limits, r, target);
    case Take(r) =>
      HolderOk(s, limits, r);
      TakeKeeps(s, limits, r);
    case BecomesReady(r, ok) => ReadyKeeps(s, limits, r, ok);
    case Attest(r, id, ok, since, expiresAt) => AttestKeeps(s, limits, r, id, ok, since, expiresAt);
    case Send(r) =>
      HolderOk(s, limits, r);
      SendKeeps(s, limits, r);
    case SendResult(r, outcome) =>
      HolderOk(s, limits, r);
      ResultKeeps(s, limits, r, outcome);
    case Body(r, event) =>
      HolderOk(s, limits, r);
      BodyKeeps(s, limits, r, event);
    case Cancel(r) => CancelKeeps(s, limits, r);
  }

  // ----- runs

  /** No connections and no requests, one empty pool for each target. */
  predicate Initial(s: State) {
    s.conns == map[] && s.owner == map[] && s.requests == map[] && forall t :: t in s.idle ==> s.idle[t] == []
  }

  /** `Do` is defined on states that satisfy `Inv`; by RunKeepsInv that is every state of a run. */
  ghost predicate Run(states: seq<State>, steps: seq<Step>, limits: PoolLimits) {
    && |states| == |steps| + 1
    && Initial(states[0])
    && forall i :: 0 <= i < |steps| ==>
         Enabled(states[i], steps[i]) && (Inv(states[i], limits) ==> states[i + 1] == Do(states[i], limits, steps[i]))
  }

  lemma {:induction false} RunKeepsInv(states: seq<State>, steps: seq<Step>, limits: PoolLimits, i: nat)
    requires Run(states, steps, limits) && i < |states|
    ensures Inv(states[i], limits)
    decreases i
  {
    if i == 0 {
      assert OwnersAgree(states[0]);
    } else {
      hide Inv, Do, Enabled;
      RunKeepsInv(states, steps, limits, i - 1);
      StepKeepsInv(states[i - 1], limits, steps[i - 1]);
    }
  }

  ghost predicate InSomePool(s: State, id: nat) {
    exists t :: t in s.idle && id in s.idle[t]
  }

  ghost predicate InUse(s: State, id: nat) {
    exists r :: r in s.requests && Holds(s.requests[r].at) == Some(id)
  }

  /**
   In every reachable state each connection is idle in one pool, held by one request or retired,
   and in exactly one of these; pools and request counts are within their limits.
   */
  lemma EveryConnectionHasOnePlace(states: seq<State>, steps: seq<Step>, limits: PoolLimits, i: nat, id: nat)
    requires Run(states, steps, limits) && i < |states| && id in states[i].conns
    ensures var s := states[i];
            && id in s.owner
            && (s.owner[id].InPool? <==> InSomePool(s, id))
            && (s.owner[id].HeldBy? <==> InUse(s, id))
            && (s.owner[id].Retired? <==> !InSomePool(s, id) && !InUse(s, id))
            && s.conns[id].requests <= limits.requests
    ensures forall t :: t in states[i].idle ==> NoDup(states[i].idle[t]) && |states[i].idle[t]| <= limits.idle
  {
    RunKeepsInv(states, steps, limits, i);
    var s := states[i];
    if s.owner[id].InPool? {
      assert id in s.idle[s.owner[id].target];
    }
    if s.owner[id].HeldBy? {
      assert Holds(s.requests[s.owner[id].request].at) == Some(id);
    }
    hide RequestsOk;
  }

  /** One step: what is retired stays so, and only a fully read body puts a connection into a pool. */
  lemma StepMoves(s: State, limits: PoolLimits, step: Step, id: nat)
    requires Inv(s, limits) && Enabled(s, step) && id in s.owner
    ensures var t := Do(s, limits, step);
            && id in t.owner
            && (s.owner[id].Retired? ==> t.owner[id].Retired?)
            && (t.owner[id].InPool? && !s.owner[id].InPool? ==>
                  step.Body? && step.event.FullyRead? && s.owner[id] == HeldBy(step.r))
  {
    hide UsableAt, PlaceOk, AttemptsOk, WithinLimits, Retain, Usable, PoolsAgree, PooledConns, DoTake;
    if step.Take? {
      HolderOk(s, limits, step.r);
      TakeMoves(s, limits, step.r, id);
    } else if step.Body? || step.BecomesReady? || step.SendResult? || step.Cancel? || step.Send? {
      HolderOk(s, limits, step.r);
    }
  }

  lemma TakeMoves(s: State, limits: PoolLimits, r: nat, id: nat)
    requires OwnersAgree(s) && r in s.requests && s.requests[r].target in s.idle && id in s.owner
    ensures var t := DoTake(s, limits, r);
            && id in t.owner
            && (s.owner[id].Retired? ==> t.owner[id].Retired?)
            && (t.owner[id].InPool? ==> s.owner[id].InPool?)
  {
    hide UsableAt, Usable, PooledConns, HoldersAgree, NoDup;
    RetainFacts(s.idle[s.requests[r].target], Usable(s, limits));
  }

  lemma {:induction false} RetiredStaysRetired(states: seq<State>, steps: seq<Step>, limits: PoolLimits, i: nat,
                                               j: nat, id: nat)
    requires Run(states, steps, limits) && i <= j < |states|
    requires id in states[i].owner && states[i].owner[id].Retired?
    ensures id in states[j].owner && states[j].owner[id].Retired?
    decreases j
  {
    if i < j {
      RetiredStaysRetired(states, steps, limits, i, j - 1, id);
      RunKeepsInv(states, steps, limits, j - 1);
      StepMoves(states[j - 1], limits, steps[j - 1], id);
    }
  }

  /** A connection that a step adds is held by the request that attested it. */
  lemma NewIsHeld(s: State, limits: PoolLimits, step: Step, id: nat)
    requires Inv(s, limits) && Enabled(s, step) && id !in s.owner && id in Do(s, limits, step).owner
    ensures Do(s, limits, step).owner[id].HeldBy?
  {
    StepKeepsInv(s, limits, step);
    ConnectionComesFrom(s, limits, step, id);
    hide PoolsAgree, PooledConns, HoldersAgree, WithinLimits, RequestsOk, UsableAt;
  }

  /** Only a fully read body puts a connection into a pool. */
  lemma OnlyReadBodiesReturn(states: seq<State>, steps: seq<Step>, limits: PoolLimits, i: nat, id: nat)
    requires Run(states, steps, limits) && i < |steps|
    requires id in states[i + 1].owner && states[i + 1].owner[id].InPool?
    requires !(id in states[i].owner && states[i].owner[id].InPool?)
    ensures steps[i].Body? && steps[i].event.FullyRead?
    ensures id in states[i].owner && states[i].owner[id] == HeldBy(steps[i].r)
  {
    hide Inv, Do, Enabled;
    RunKeepsInv(states, steps, limits, i);
    if id in states[i].owner {
      StepMoves(states[i], limits, steps[i], id);
    } else {
      NewIsHeld(states[i], limits, steps[i], id);
    }
  }

  function Serialised(attempts: seq<Attempt>): nat {
    if attempts == [] then 0
    else Serialised(attempts[..|attempts| - 1]) + (if attempts[|attempts| - 1].outcome.Unsent? then 0 else 1)
  }

  /**
   A forwarded request is attempted on at most two connections and serialised on at most one; the
   second attempt follows only an unsent first, on a connection this request had attested and
   nobody has used; every attempt is on a connection attested for the request's target and found
   usable while the request held it.
   */
  lemma ForwardedAtMostOnce(states: seq<State>, steps: seq<Step>, limits: PoolLimits, i: nat, r: nat)
    requires Run(states, steps, limits) && i < |states| && r in states[i].requests
    ensures var attempts := states[i].requests[r].attempts;
            && |attempts| <= 2 && Serialised(attempts) <= 1
            && (|attempts| == 2 ==> attempts[0].outcome.Unsent? && attempts[0].conn != attempts[1].conn
                                    && NewFor(attempts[1].vetting.conn, r))
            && (forall k :: 0 <= k < |attempts| ==>
                  Vetted(attempts[k].vetting, limits, states[i].requests[r].target, states[i].now))
  {
    RunKeepsInv(states, steps, limits, i);
    HolderOk(states[i], limits, r);
    var attempts := states[i].requests[r].attempts;
    hide UsableAt, PlaceOk;
    if |attempts| == 2 {
      assert attempts[..1][..0] == [];
      assert Serialised(attempts[..1]) == 0;
    } else if |attempts| == 1 {
      assert attempts[..0] == [];
    }
  }

  // ----- the same, read off the trace alone

  /** The requests handed to a connection for r, and those it handed back unsent. */
  function Sends(steps: seq<Step>, r: nat): nat {
    if steps == [] then 0
    else Sends(steps[..|steps| - 1], r) + (if steps[|steps| - 1] == Send(r) then 1 else 0)
  }

  function HandedBack(steps: seq<Step>, r: nat): nat {
    if steps == [] then 0
    else HandedBack(steps[..|steps| - 1], r) + (if steps[|steps| - 1] == SendResult(r, Unsent) then 1 else 0)
  }

  lemma AttemptsStep(s: State, limits: PoolLimits, step: Step, r: nat)
    requires Inv(s, limits) && Enabled(s, step)
    ensures var t := Do(s, limits, step);
            && (r in s.requests ==> r in t.requests)
            && (r in t.requests && r !in s.requests ==>
                t.requests[r].attempts == [] && Serialised(t.requests[r].attempts) == 0)
            && (r !in s.requests ==> step != Send(r) && step != SendResult(r, Unsent))
            && (r in s.requests ==>
                  var before, after := s.requests[r].attempts, t.requests[r].attempts;
                  && |after| == |before| + (if step == Send(r) then 1 else 0)
                  && Serialised(after) ==
                     Serialised(before)
                     + (if step == Send(r) then 1 else 0) - (if step == SendResult(r, Unsent) then 1 else 0))
  {
    hide Inv, Do, Enabled, Serialised;
    if r in s.requests && step == Send(r) {
      OneMoreAttempt(s, limits, r);
    } else if r in s.requests && step.SendResult? && step.r == r {
      AttemptAnswered(s, limits, r, step.outcome);
    } else {
      OtherAttempts(s, limits, step, r);
    }
  }

  lemma OneMoreAttempt(s: State, limits: PoolLimits, r: nat)
    requires Inv(s, limits) && Enabled(s, Send(r))
    ensures var t := Do(s, limits, Send(r));
            && r in t.requests
            && |t.requests[r].attempts| == |s.requests[r].attempts| + 1
            && Serialised(t.requests[r].attempts) == Serialised(s.requests[r].attempts) + 1
  {
    hide OwnersAgree, WithinLimits, UsableAt, Vetted, PlaceOk, Serialised;
    HolderOk(s, limits, r);
    OneMoreSerialised(s.requests[r].attempts, Attempt(s.requests[r].at.conn, s.requests[r].at.vetting, InProgress));
  }

  lemma OneMoreSerialised(attempts: seq<Attempt>, a: Attempt)
    requires !a.outcome.Unsent?
    ensures Serialised(attempts + [a]) == Serialised(attempts) + 1
  {
    assert (attempts + [a])[..|attempts|] == attempts;
  }

  /** The outcome of the last attempt becomes known. */
  lemma LastAnswered(attempts: seq<Attempt>, outcome: SendOutcome)
    requires attempts != [] && attempts[|attempts| - 1].outcome.InProgress?
    ensures var n := |attempts| - 1;
            Serialised(attempts[n := attempts[n].(outcome := outcome)]) ==
            Serialised(attempts) - (if outcome.Unsent? then 1 else 0)
  {
    var n := |attempts| - 1;
    assert attempts[n := attempts[n].(outcome := outcome)][..n] == attempts[..n];
  }

  lemma AttemptAnswered(s: State, limits: PoolLimits, r: nat, outcome: SendOutcome)
    requires Inv(s, limits) && Enabled(s, SendResult(r, outcome))
    ensures var t := Do(s, limits, SendResult(r, outcome));
            && r in t.requests
            && |t.requests[r].attempts| == |s.requests[r].attempts|
            && Serialised(t.requests[r].attempts) ==
                Serialised(s.requests[r].attempts) - (if outcome.Unsent? then 1 else 0)
  {
    hide OwnersAgree, WithinLimits, UsableAt, Vetted, Serialised;
    HolderOk(s, limits, r);
    LastAnswered(s.requests[r].attempts, outcome);
  }

  lemma OtherAttempts(s: State, limits: PoolLimits, step: Step, r: nat)
    requires Inv(s, limits) && Enabled(s, step)
    requires r !in s.requests || (step != Send(r) && !(step.SendResult? && step.r == r))
    ensures var t := Do(s, limits, step);
            && (r in s.requests ==> r in t.requests && t.requests[r].attempts == s.requests[r].attempts)
            && (r in t.requests && r !in s.requests ==>
                t.requests[r].attempts == [] && Serialised(t.requests[r].attempts) == 0)
            && (r !in s.requests ==> step != Send(r) && !(step.SendResult? && step.r == r))
  {
    hide OwnersAgree, WithinLimits, UsableAt, AttemptsOk, Vetted, NewFor, Usable, DoTake, DoReady, DoAttest, DoSend,
         DoSendResult, DoBody, DoCancel, SameOrigins;
    match step
    case BecomesReady(q, ok) => ReadyNext(s, limits, q, ok);
    case Take(q) => HolderOk(s, limits, q); TakenNext(s, limits, q);
    case Attest(q, id, ok, since, expiresAt) => AttestedNext(s, q, id, ok, since, expiresAt);
    case Send(q) => HolderOk(s, limits, q); SentNext(s, q);
    case SendResult(q, outcome) => HolderOk(s, limits, q); AnsweredNext(s, q, outcome);
    case Body(q, event) => HolderOk(s, limits, q); BodyNext(s, limits, q, event);
    case Cancel(q) => CancelledNext(s, q);
    case _ =>
  }

  lemma NextStep(steps: seq<Step>, i: nat, r: nat)
    requires 0 < i <= |steps|
    ensures Sends(steps[..i], r) == Sends(steps[..i - 1], r) + (if steps[i - 1] == Send(r) then 1 else 0)
    ensures HandedBack(steps[..i], r) ==
            HandedBack(steps[..i - 1], r) + (if steps[i - 1] == SendResult(r, Unsent) then 1 else 0)
  {
    assert steps[..i][..i - 1] == steps[..i - 1];
  }

  lemma {:induction false} AttemptsAreSends(states: seq<State>, steps: seq<Step>, limits: PoolLimits, i: nat, r: nat)
    requires Run(states, steps, limits) && i < |states|
    ensures r !in states[i].requests ==> Sends(steps[..i], r) == 0 && HandedBack(steps[..i], r) == 0
    ensures r in states[i].requests ==>
              && Sends(steps[..i], r) == |states[i].requests[r].attempts|
              && Serialised(states[i].requests[r].attempts) == Sends(steps[..i], r) - HandedBack(steps[..i], r)
    decreases i
  {
    hide Inv, Do, Enabled, Serialised;
    if i > 0 {
      AttemptsAreSends(states, steps, limits, i - 1, r);
      RunKeepsInv(states, steps, limits, i - 1);
      AttemptsStep(states[i - 1], limits, steps[i - 1], r);
      NextStep(steps, i, r);
      hide Sends, HandedBack;
    }
  }

  /** In every run a request is put on a connection at most twice, and all but one of those came back unsent. */
  lemma SentAtMostOnce(states: seq<State>, steps: seq<Step>, limits: PoolLimits, i: nat, r: nat)
    requires Run(states, steps, limits) && i < |states|
    ensures Sends(steps[..i], r) <= 2
    ensures Sends(steps[..i], r) <= HandedBack(steps[..i], r) + 1
  {
    AttemptsAreSends(states, steps, limits, i, r);
    if r in states[i].requests {
      ForwardedAtMostOnce(states, steps, limits, i, r);
    }
  }

  lemma ConnectionComesFrom(s: State, limits: PoolLimits, step: Step, id: nat)
    requires Inv(s, limits) && Enabled(s, step) && id in Do(s, limits, step).conns
    ensures var c := Do(s, limits, step).conns[id];
            || (id in s.conns && SameOrigin(s.conns[id], c))
            || (id !in s.conns && step.Attest? && step.id == id && step.ok && step.r in s.requests
                && s.requests[step.r].target == c.target && step.r == c.attestedBy && step.since == c.attestedAt)
  {
    hide OwnersAgree, WithinLimits, UsableAt, AttemptsOk, Vetted, NewFor, Usable, DoTake, DoSend, DoSendResult,
         DoBody, DoCancel, MovesElsewhere;
    match step
    case Take(q) => HolderOk(s, limits, q); TakenNext(s, limits, q);
    case Send(q) => HolderOk(s, limits, q); SentNext(s, q);
    case SendResult(q, outcome) => HolderOk(s, limits, q); AnsweredNext(s, q, outcome);
    case Body(q, event) => HolderOk(s, limits, q); BodyNext(s, limits, q, event);
    case Cancel(q) => CancelledNext(s, q);
    case _ =>
  }

  /** Every connection there is was attested by a step of the run, for the target it serves. */
  lemma {:induction false} WasAttested(states: seq<State>, steps: seq<Step>, limits: PoolLimits, i: nat, id: nat)
    returns (j: nat)
    requires Run(states, steps, limits) && i < |states| && id in states[i].conns
    ensures j < i && steps[j].Attest? && steps[j].id == id && steps[j].ok
    ensures steps[j].r in states[j].requests && states[j].requests[steps[j].r].target == states[i].conns[id].target
    ensures steps[j].r == states[i].conns[id].attestedBy && steps[j].since == states[i].conns[id].attestedAt
    decreases i
  {
    hide Inv, Do, Enabled;
    assert i > 0;
    RunKeepsInv(states, steps, limits, i - 1);
    ConnectionComesFrom(states[i - 1], limits, steps[i - 1], id);
    j := i - 1;
    if id in states[j].conns {
      j := WasAttested(states, steps, limits, i - 1, id);
    }
  }

  predicate AboutToSend(at: RequestAt) {
    at.Ready? || at.ReadyRetry?
  }

  /** Only request q moves, and not to a place from which it would be sent. */
  predicate MovesElsewhere(s: State, t: State, q: nat) {
    q in s.requests && q in t.requests && t.requests == s.requests[q := t.requests[q]]
    && (AboutToSend(t.requests[q].at) ==> t.requests[q] == s.requests[q])
  }

  /** No connection is added, and each was attested as before. */
  predicate SameOrigins(a: map<nat, Conn>, b: map<nat, Conn>) {
    b.Keys == a.Keys && forall id :: id in a ==> SameOrigin(a[id], b[id])
  }

  predicate SameOrigin(c: Conn, d: Conn) {
    c.target == d.target && c.attestedBy == d.attestedBy && c.attestedAt == d.attestedAt
  }

  lemma TakenNext(s: State, limits: PoolLimits, q: nat)
    requires q in s.requests && s.requests[q].target in s.idle
    ensures MovesElsewhere(s, DoTake(s, limits, q), q)
    ensures DoTake(s, limits, q).requests[q].attempts == s.requests[q].attempts
    ensures DoTake(s, limits, q).conns == s.conns
  {
    hide Usable, Retain;
  }

  lemma ReadyNext(s: State, limits: PoolLimits, q: nat, ok: bool)
    requires Enabled(s, BecomesReady(q, ok))
    ensures var t := DoReady(s, limits, q, ok);
            && t.conns == s.conns && q in t.requests && t.requests == s.requests[q := t.requests[q]]
            && t.requests[q].attempts == s.requests[q].attempts && t.requests[q].target == s.requests[q].target
            && (AboutToSend(t.requests[q].at) ==>
                  ok && Holds(t.requests[q].at) == Holds(s.requests[q].at) && Usable(s, limits)(t.requests[q].at.conn))
  {
    hide UsableAt;
  }

  lemma AttestedNext(s: State, q: nat, id: nat, ok: bool, since: nat, expiresAt: Option<int>)
    requires Enabled(s, Attest(q, id, ok, since, expiresAt))
    ensures MovesElsewhere(s, DoAttest(s, q, id, ok, since, expiresAt), q)
    ensures DoAttest(s, q, id, ok, since, expiresAt).requests[q].attempts == s.requests[q].attempts
  {
  }

  lemma SentNext(s: State, q: nat)
    requires Enabled(s, Send(q)) && s.requests[q].at.conn in s.conns
    ensures MovesElsewhere(s, DoSend(s, q), q)
    ensures SameOrigins(s.conns, DoSend(s, q).conns)
  {
  }

  lemma AnsweredNext(s: State, q: nat, outcome: SendOutcome)
    requires Enabled(s, SendResult(q, outcome)) && s.requests[q].attempts != []
    ensures MovesElsewhere(s, DoSendResult(s, q, outcome), q)
    ensures DoSendResult(s, q, outcome).conns == s.conns
  {
  }

  lemma BodyNext(s: State, limits: PoolLimits, q: nat, event: BodyEvent)
    requires Enabled(s, Body(q, event)) && s.requests[q].at.conn in s.conns && s.requests[q].target in s.idle
    ensures MovesElsewhere(s, DoBody(s, limits, q, event), q)
    ensures DoBody(s, limits, q, event).requests[q].attempts == s.requests[q].attempts
    ensures SameOrigins(s.conns, DoBody(s, limits, q, event).conns)
  {
    hide Usable, Retain, UsableAt;
  }

  lemma CancelledNext(s: State, q: nat)
    requires Enabled(s, Cancel(q))
    ensures MovesElsewhere(s, DoCancel(s, q), q)
    ensures DoCancel(s, q).requests[q].attempts == s.requests[q].attempts
    ensures DoCancel(s, q).conns == s.conns
  {
  }

  lemma ReadyComesFrom(s: State, limits: PoolLimits, step: Step, r: nat)
    requires Inv(s, limits) && Enabled(s, step)
    requires r in Do(s, limits, step).requests && AboutToSend(Do(s, limits, step).requests[r].at)
    ensures var req := Do(s, limits, step).requests[r];
            && r in s.requests && s.requests[r].target == req.target && Holds(s.requests[r].at) == Holds(req.at)
            && (s.requests[r].at == req.at || (step == BecomesReady(r, true) && Usable(s, limits)(req.at.conn)))
  {
    hide OwnersAgree, WithinLimits, UsableAt, AttemptsOk, Vetted, NewFor, Usable, DoTake, DoReady, DoAttest, DoSend,
         DoSendResult, DoBody, DoCancel, SameOrigins;
    match step
    case BecomesReady(q, ok) => ReadyNext(s, limits, q, ok);
    case Take(q) => HolderOk(s, limits, q); TakenNext(s, limits, q);
    case Attest(q, id, ok, since, expiresAt) => AttestedNext(s, q, id, ok, since, expiresAt);
    case Send(q) => HolderOk(s, limits, q); SentNext(s, q);
    case SendResult(q, outcome) => HolderOk(s, limits, q); AnsweredNext(s, q, outcome);
    case Body(q, event) => HolderOk(s, limits, q); BodyNext(s, limits, q, event);
    case Cancel(q) => CancelledNext(s, q);
    case _ =>
  }

  /** A request about to be sent was seen ready on a usable connection, which it has held ever since. */
  lemma {:induction false} WasSeenReady(states: seq<State>, steps: seq<Step>, limits: PoolLimits, i: nat, r: nat)
    returns (j: nat)
    requires Run(states, steps, limits) && i < |states|
    requires r in states[i].requests && AboutToSend(states[i].requests[r].at)
    ensures j < i && steps[j] == BecomesReady(r, true) && Usable(states[j], limits)(states[i].requests[r].at.conn)
    ensures forall k :: j <= k <= i ==>
              && r in states[k].requests && states[k].requests[r].target == states[i].requests[r].target
              && Holds(states[k].requests[r].at) == Some(states[i].requests[r].at.conn)
    decreases i
  {
    hide Inv, Do, Enabled, Usable;
    assert i > 0;
    RunKeepsInv(states, steps, limits, i - 1);
    ReadyComesFrom(states[i - 1], limits, steps[i - 1], r);
    j := i - 1;
    if states[j].requests[r].at == states[i].requests[r].at {
      j := WasSeenReady(states, steps, limits, i - 1, r);
    }
  }

  /**
   Every send of every run is on a connection that was attested earlier for the request's own
   target, and that the request saw ready and usable after that and has held ever since.
   */
  lemma EverySendIsVetted(states: seq<State>, steps: seq<Step>, limits: PoolLimits, i: nat)
    returns (attested: nat, seen: nat)
    requires Run(states, steps, limits) && i < |steps| && steps[i].Send?
    ensures attested < seen < i
    ensures var r := steps[i].r;
            && r in states[i].requests && AboutToSend(states[i].requests[r].at)
            && var id := states[i].requests[r].at.conn;
               && steps[attested].Attest? && steps[attested].id == id && steps[attested].ok
               && steps[attested].r in states[attested].requests
               && states[attested].requests[steps[attested].r].target == states[i].requests[r].target
               && steps[seen] == BecomesReady(r, true) && Usable(states[seen], limits)(id)
               && (forall k :: seen <= k <= i ==>
                   r in states[k].requests && Holds(states[k].requests[r].at) == Some(id))
  {
    var r := steps[i].r;
    assert Enabled(states[i], steps[i]);
    hide Enabled, Inv, Do;
    seen := WasSeenReady(states, steps, limits, i, r);
    RunKeepsInv(states, steps, limits, seen);
    HolderOk(states[seen], limits, r);
    attested := WasAttested(states, steps, limits, seen, states[i].requests[r].at.conn);
  }

  /** A body step of the state machine is what the lease does with that event. */
  lemma BodyStepIsTheLease(s: State, limits: PoolLimits, r: nat, event: BodyEvent)
    requires Enabled(s, Body(r, event)) && s.requests[r].at.conn in s.conns && s.requests[r].target in s.idle
    ensures var id, target := s.requests[r].at.conn, s.requests[r].target;
            var t := DoBody(s, limits, r, event);
            var stamped := s.(conns := s.conns[id := s.conns[id].(idleSince := Some(s.now))]);
            (Holds(t.requests[r].at), t.idle[target]) ==
            Settled(Some(id), s.idle[target], event, Usable(stamped, limits), limits.idle)
  {
    hide UsableAt, Usable, Retain;
  }
}
