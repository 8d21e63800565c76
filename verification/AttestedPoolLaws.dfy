/**
 The pool and the forwarding of requests seen from outside: the bounds of a connection in its own
 fields, and what has to happen, where the run theorems say what must not.
 */
module AttestedPoolLaws {
  import opened Common
  import opened AttestedPool

  /** Young enough, not expired, not idle for too long, with requests to spare, and open. */
  predicate InBounds(c: Conn, limits: PoolLimits, now: nat, utc: int) {
    && now - c.attestedAt < limits.age
    && (c.expiresAt.Some? ==> utc < c.expiresAt.value)
    && (c.idleSince.Some? && limits.idleAge.Some? ==> now - c.idleSince.value < limits.idleAge.value)
    && c.requests < limits.requests
    && !c.closed
  }

  lemma UsableIffInBounds(c: Conn, limits: PoolLimits, now: nat, utc: int)
    ensures UsableAt(c, limits, now, utc) <==> InBounds(c, limits, now, utc)
  {
  }

  /**
   Every send of every run is on a connection that was attested for the request's own target, and
   that was within all its bounds, its age counted from that attestation, when the request last saw
   it ready; the request has held it ever since.
   */
  lemma EverySendIsInBounds(states: seq<State>, steps: seq<Step>, limits: PoolLimits, i: nat)
    returns (attested: nat, seen: nat)
    requires Run(states, steps, limits) && i < |steps| && steps[i].Send?
    ensures attested < seen < i && steps[attested].Attest? && steps[attested].ok
    ensures var r := steps[i].r;
            && r in states[i].requests && AboutToSend(states[i].requests[r].at)
            && var id := states[i].requests[r].at.conn;
               && steps[attested].id == id && steps[seen] == BecomesReady(r, true)
               && steps[attested].r in states[attested].requests
               && states[attested].requests[steps[attested].r].target == states[i].requests[r].target
               && id in states[seen].conns
               && states[seen].conns[id].attestedAt == steps[attested].since
               && InBounds(states[seen].conns[id], limits, states[seen].now, states[seen].utc)
               && (forall k :: seen <= k <= i ==>
                   r in states[k].requests && Holds(states[k].requests[r].at) == Some(id))
  {
    var r := steps[i].r;
    assert Enabled(states[i], steps[i]);
    hide Enabled, Inv, Do, UsableAt;
    seen := WasSeenReady(states, steps, limits, i, r);
    var id := states[i].requests[r].at.conn;
    UsableIffInBounds(states[seen].conns[id], limits, states[seen].now, states[seen].utc);
    RunKeepsInv(states, steps, limits, seen);
    HolderOk(states[seen], limits, r);
    attested := WasAttested(states, steps, limits, seen, id);
  }

  /** A connection within its bounds that becomes ready is used. */
  lemma ReadyIsUsed(states: seq<State>, steps: seq<Step>, limits: PoolLimits, i: nat, r: nat, id: nat)
    requires Run(states, steps, limits) && i < |steps| && steps[i] == BecomesReady(r, true)
    requires r in states[i].requests && Holds(states[i].requests[r].at) == Some(id) && id in states[i].conns
    requires InBounds(states[i].conns[id], limits, states[i].now, states[i].utc)
    ensures r in states[i + 1].requests && AboutToSend(states[i + 1].requests[r].at)
    ensures Holds(states[i + 1].requests[r].at) == Some(id)
  {
    RunKeepsInv(states, steps, limits, i);
    UsableIffInBounds(states[i].conns[id], limits, states[i].now, states[i].utc);
    assert Enabled(states[i], steps[i]);
    hide Inv, UsableAt;
  }

  /** A connection that is not ready, or no longer within its bounds, is retired; a pooled one is tried again. */
  lemma UnfitIsRetired(states: seq<State>, steps: seq<Step>, limits: PoolLimits, i: nat, r: nat, ok: bool, id: nat)
    requires Run(states, steps, limits) && i < |steps| && steps[i] == BecomesReady(r, ok)
    requires r in states[i].requests && Holds(states[i].requests[r].at) == Some(id) && id in states[i].conns
    requires !ok || !InBounds(states[i].conns[id], limits, states[i].now, states[i].utc)
    ensures id in states[i + 1].owner && states[i + 1].owner[id].Retired? && r in states[i + 1].requests
    ensures states[i + 1].requests[r].at == if states[i].requests[r].at.AwaitReady? then CheckingOut else Over
  {
    RunKeepsInv(states, steps, limits, i);
    UsableIffInBounds(states[i].conns[id], limits, states[i].now, states[i].utc);
    assert Enabled(states[i], steps[i]);
    hide Inv, UsableAt;
  }

  /** A first attempt that comes back unsent is tried again; any other failure ends the request. */
  lemma UnsentIsRetried(states: seq<State>, steps: seq<Step>, limits: PoolLimits, i: nat, r: nat, outcome: SendOutcome)
    requires Run(states, steps, limits) && i < |steps| && steps[i] == SendResult(r, outcome) && !outcome.Responded?
    ensures r in states[i].requests && r in states[i + 1].requests
    ensures states[i + 1].requests[r].at ==
            if outcome.Unsent? && |states[i].requests[r].attempts| == 1 then Reconnecting else Over
  {
    hide OwnersAgree, WithinLimits, RequestsOk, UsableAt, Vetted;
    RunKeepsInv(states, steps, limits, i);
    assert Enabled(states[i], steps[i]);
    HolderOk(states[i], limits, r);
    assert states[i + 1] == DoSendResult(states[i], r, outcome);
    hide Do, Inv;
  }

  ghost predicate SomeIdleInBounds(s: State, limits: PoolLimits, target: nat) {
    && target in s.idle
    && exists id :: id in s.idle[target] && id in s.conns && InBounds(s.conns[id], limits, s.now, s.utc)
  }

  /** A request takes an idle connection of its target that is within its bounds, and connects only if there is none. */
  lemma TakesIdleIfAny(states: seq<State>, steps: seq<Step>, limits: PoolLimits, i: nat, r: nat)
    requires Run(states, steps, limits) && i < |steps| && steps[i] == Take(r)
    ensures r in states[i].requests && r in states[i + 1].requests
    ensures var s, at := states[i], states[i + 1].requests[r].at;
            if SomeIdleInBounds(s, limits, s.requests[r].target) then
              && at.AwaitReady? && at.conn in s.idle[s.requests[r].target]
              && at.conn in s.conns && InBounds(s.conns[at.conn], limits, s.now, s.utc)
            else at == Connecting
  {
    var s := states[i];
    RunKeepsInv(states, steps, limits, i);
    assert Enabled(s, steps[i]);
    HolderOk(s, limits, r);
    var idle, usable := s.idle[s.requests[r].target], Usable(s, limits);
    RetainFacts(idle, usable);
    forall id: nat
      ensures usable(id) <==> id in s.conns && InBounds(s.conns[id], limits, s.now, s.utc)
    {
      if id in s.conns {
        UsableIffInBounds(s.conns[id], limits, s.now, s.utc);
      }
    }
    var kept := Retain(idle, usable);
    assert states[i + 1] == DoTake(s, limits, r);
    hide Inv, UsableAt, InBounds, Usable, Retain, NoDup, SweepPool;
    if kept != [] {
      assert kept[|kept| - 1] in kept;
    }
  }

  /** A fully read body gives its connection back, if it is within its bounds and there is room. */
  lemma ReadBodyReturns(states: seq<State>, steps: seq<Step>, limits: PoolLimits, i: nat, r: nat)
    requires Run(states, steps, limits) && i < |steps| && steps[i] == Body(r, FullyRead)
    ensures r in states[i].requests && states[i].requests[r].at.Reading?
    ensures var s, id, target := states[i], states[i].requests[r].at.conn, states[i].requests[r].target;
            && id in s.conns && target in s.idle && id in states[i + 1].owner
            && id in states[i + 1].conns && states[i + 1].conns[id].idleSince == Some(s.now)
            && var fits := InBounds(s.conns[id].(idleSince := Some(s.now)), limits, s.now, s.utc);
               && (fits && |s.idle[target]| < limits.idle ==> states[i + 1].owner[id] == InPool(target))
               && (!fits ==> states[i + 1].owner[id] == Retired)
  {
    hide Inv, InBounds, DoBody;
    var s := states[i];
    RunKeepsInv(states, steps, limits, i);
    assert Enabled(s, steps[i]) && states[i + 1] == Do(s, limits, steps[i]);
    HolderOk(s, limits, r);
    HeldIsOwned(s, limits, r);
    BodyReturns(s, limits, r);
    assert states[i + 1] == DoBody(s, limits, r, FullyRead);
  }

  lemma HeldIsOwned(s: State, limits: PoolLimits, r: nat)
    requires Inv(s, limits) && r in s.requests && Holds(s.requests[r].at).Some?
    ensures Holds(s.requests[r].at).value in s.owner
  {
    hide PoolsAgree, PooledConns, WithinLimits, RequestsOk;
  }

  lemma BodyReturns(s: State, limits: PoolLimits, r: nat)
    requires Enabled(s, Body(r, FullyRead))
    requires s.requests[r].at.conn in s.conns && s.requests[r].at.conn in s.owner && s.requests[r].target in s.idle
    ensures var t, id, target := DoBody(s, limits, r, FullyRead), s.requests[r].at.conn, s.requests[r].target;
            && id in t.owner && id in t.conns && t.conns[id].idleSince == Some(s.now)
            && var fits := InBounds(s.conns[id].(idleSince := Some(s.now)), limits, s.now, s.utc);
               && (fits && |s.idle[target]| < limits.idle ==> t.owner[id] == InPool(target))
               && (!fits ==> t.owner[id] == Retired)
  {
    var id, target := s.requests[r].at.conn, s.requests[r].target;
    var stamped := s.(conns := s.conns[id := s.conns[id].(idleSince := Some(s.now))]);
    UsableIffInBounds(stamped.conns[id], limits, s.now, s.utc);
    RetainFacts(s.idle[target], Usable(stamped, limits));
    hide UsableAt, InBounds, Retain, NoDup, GivenBack;
  }

  // ----- counting

  /** How often a request was put on this connection before state i. */
  ghost function SendsOn(states: seq<State>, steps: seq<Step>, id: nat, i: nat): nat
    requires i <= |steps| && i < |states|
  {
    if i == 0 then 0
    else SendsOn(states, steps, id, i - 1) + (if SendOn(states[i - 1], steps[i - 1], id) then 1 else 0)
  }

  predicate SendOn(s: State, step: Step, id: nat) {
    step.Send? && step.r in s.requests && Holds(s.requests[step.r].at) == Some(id)
  }

  lemma SendCounts(s: State, limits: PoolLimits, step: Step, id: nat)
    requires Inv(s, limits) && Enabled(s, step) && id in Do(s, limits, step).conns
    ensures id in s.conns ==>
              Do(s, limits, step).conns[id].requests == s.conns[id].requests + (if SendOn(s, step, id) then 1 else 0)
    ensures id !in s.conns ==> Do(s, limits, step).conns[id].requests == 0 && !SendOn(s, step, id)
  {
    hide OwnersAgree, WithinLimits, UsableAt, AttemptsOk, Vetted, NewFor, Usable, DoTake, DoReady, DoSendResult,
         DoCancel, MovesElsewhere, Retain, GivenBack;
    match step
    case BecomesReady(q, ok) => ReadyNext(s, limits, q, ok);
    case Take(q) => HolderOk(s, limits, q); TakenNext(s, limits, q);
    case Send(q) => HolderOk(s, limits, q);
    case SendResult(q, outcome) => HolderOk(s, limits, q); AnsweredNext(s, q, outcome);
    case Body(q, event) => HolderOk(s, limits, q);
    case Cancel(q) => CancelledNext(s, q);
    case _ =>
  }

  /** The request count of a connection is the number of requests that were put on it. */
  lemma {:induction false} RequestsAreCounted(states: seq<State>, steps: seq<Step>, limits: PoolLimits, i: nat, id: nat)
    requires Run(states, steps, limits) && i < |states| && i <= |steps|
    ensures id in states[i].conns ==> states[i].conns[id].requests == SendsOn(states, steps, id, i)
    ensures id !in states[i].conns ==> SendsOn(states, steps, id, i) == 0
    decreases i
  {
    if i > 0 {
      var s, step := states[i - 1], steps[i - 1];
      hide Do, Enabled, HoldersAgree, PoolsAgree, PooledConns, WithinLimits, RequestsOk;
      RequestsAreCounted(states, steps, limits, i - 1, id);
      RunKeepsInv(states, steps, limits, i - 1);
      RunKeepsInv(states, steps, limits, i);
      if id in s.conns {
        StepMoves(s, limits, step, id);
        SendCounts(s, limits, step, id);
      } else {
        NotHeldNotSent(s, limits, step, id);
        if id in states[i].conns {
          SendCounts(s, limits, step, id);
        }
      }
    }
  }

  lemma NotHeldNotSent(s: State, limits: PoolLimits, step: Step, id: nat)
    requires Inv(s, limits) && id !in s.conns
    ensures !SendOn(s, step, id)
  {
    if step.Send? && step.r in s.requests {
      HolderOk(s, limits, step.r);
    }
  }
}
