/**
 The refresh protocol seen from outside: what a waiter waits for and what makes it return, and how
 the delays follow from the outcomes of the fetches. All of it over every run.
 */
module RefreshLaws {
  import opened Common
  import opened RefreshProtocol

  // ----- waiters

  /** Everything that lets an active waiter return at an instant: a new generation, a backoff, its deadline. */
  ghost predicate MayReturn(s: State, w: Waiter) {
    || s.status.generation != w.generation
    || (s.status.FailureBackoff? && s.now < s.status.until)
    || w.deadline <= s.now
  }

  /** A waiter returns only for one of these reasons, unless its request is dropped. */
  lemma WhyWaitersReturn(states: seq<State>, steps: seq<Step>, i: nat, id: nat)
    requires Run(states, steps) && i < |steps| && Active(states[i], id) && !Active(states[i + 1], id)
    ensures steps[i] == Abandon(id) || MayReturn(states[i], states[i].waiters[id])
    ensures id in states[i + 1].waiters && states[i + 1].waiters[id].at.Returned?
  {
    assert Enabled(states[i], steps[i]) && states[i + 1] == Do(states[i], steps[i]);
    hide NextDelay, Planned, Entered;
  }

  lemma StaysActive(states: seq<State>, steps: seq<Step>, i: nat, id: nat)
    requires Run(states, steps) && i + 1 < |states| && Active(states[i], id)
    requires i < |steps| ==> steps[i] != Abandon(id)
    requires !MayReturn(states[i], states[i].waiters[id])
    ensures Active(states[i + 1], id)
  {
    assert i < |steps|;
    hide Run, MayReturn;
    if !Active(states[i + 1], id) {
      WhyWaitersReturn(states, steps, i, id);
    }
  }

  /** What a request that starts to wait does: it is turned away during a backoff, and otherwise has a deadline. */
  lemma WaitersEnter(states: seq<State>, steps: seq<Step>, i: nat, id: nat)
    requires Run(states, steps) && i < |steps| && steps[i] == Enter(id)
    ensures var s, t := states[i], states[i + 1];
            && id in t.waiters
            && var w := t.waiters[id];
               && w.generation == s.status.generation && w.entered == s.now
               && (w.at.Returned? <==> s.status.FailureBackoff? && s.now < s.status.until)
               && (!w.at.Returned? ==>
                     w.deadline == match s.status
                                   case InFlight(_, deadline) => deadline
                                   case FailureBackoff(_, until) => s.now + 15 * SECOND
                                   case OnDemandGap(_, until) => Max(until, s.now) + 15 * SECOND)
  {
    assert Enabled(states[i], steps[i]) && states[i + 1] == Do(states[i], steps[i]);
    hide NextDelay, Planned;
  }

  /** A fetch in flight is given fifteen seconds from the instant at which it was found due. */
  lemma FetchDeadline(states: seq<State>, steps: seq<Step>, i: nat)
    requires Run(states, steps) && i < |steps| && steps[i].PublishInFlight?
    ensures states[i].at.Starting?
    ensures states[i + 1].status == InFlight(states[i].generation, states[i].at.startNow + 15 * SECOND)
  {
    assert Enabled(states[i], steps[i]) && states[i + 1] == Do(states[i], steps[i]);
    hide NextDelay, Planned;
  }

  /**
   What a look at the status leads to: a return for a new generation or during a backoff, more
   waiting while the fetch of its generation is in flight, a nap to the end of a gap, and a nudge
   once the gap or backoff is over.
   */
  lemma WhatALookDoes(states: seq<State>, steps: seq<Step>, i: nat, id: nat)
    requires Run(states, steps) && i < |steps| && steps[i] == Check(id)
    ensures id in states[i].waiters && id in states[i + 1].waiters
    ensures var s, at := states[i], states[i + 1].waiters[id].at;
            var same := s.status.generation == states[i].waiters[id].generation;
            && (at.Returned? <==> !same || (s.status.FailureBackoff? && s.now < s.status.until))
            && (at.Waiting? <==> same && s.status.InFlight?)
            && (at.Napping? <==> same && s.status.OnDemandGap? && s.now < s.status.until)
            && (at.Napping? ==> at.until == s.status.until)
            && (at.Nudging? <==> same && !s.status.InFlight? && s.status.until <= s.now)
  {
    assert Enabled(states[i], steps[i]) && states[i + 1] == Do(states[i], steps[i]);
    hide NextDelay, Planned;
  }

  /** While a fetch is in flight, its status stays until its outcome is published. */
  lemma StatusStays(s: State, step: Step)
    requires Inv(s) && Enabled(s, step) && s.status.InFlight? && !step.PublishOutcome?
    ensures Do(s, step).status == s.status
  {
    hide NextDelay, Planned, TimerInv, NudgeInv, StatusInv, WaiterInv;
  }

  lemma {:induction false} StatusStaysUntilOutcome(states: seq<State>, steps: seq<Step>, i: nat, j: nat)
    requires Run(states, steps) && i <= j < |states| && states[i].status.InFlight?
    requires j <= |steps| && forall k :: i <= k < j ==> !steps[k].PublishOutcome?
    ensures states[j].status == states[i].status
    decreases j
  {
    hide Inv, Do, Enabled;
    if i < j {
      StatusStaysUntilOutcome(states, steps, i, j - 1);
      RunKeepsInv(states, steps, j - 1);
      StatusStays(states[j - 1], steps[j - 1]);
    }
  }

  /** A waiter keeps its generation and its deadline for as long as it is there. */
  lemma WaiterKeeps(s: State, step: Step, id: nat)
    requires Enabled(s, step) && id in s.waiters
    ensures var t := Do(s, step);
            && id in t.waiters
            && t.waiters[id].generation == s.waiters[id].generation && t.waiters[id].deadline == s.waiters[id].deadline
            && (!Active(s, id) ==> !Active(t, id))
  {
    hide NextDelay, Planned, Entered, Checked;
  }

  lemma {:induction false} WaiterKeepsInRun(states: seq<State>, steps: seq<Step>, i: nat, j: nat, id: nat)
    requires Run(states, steps) && i <= j < |states| && id in states[i].waiters
    ensures id in states[j].waiters && states[j].waiters[id].generation == states[i].waiters[id].generation
    ensures states[j].waiters[id].deadline == states[i].waiters[id].deadline
    ensures !Active(states[i], id) ==> !Active(states[j], id)
    decreases j
  {
    hide Do, Enabled;
    if i < j {
      WaiterKeepsInRun(states, steps, i, j - 1, id);
      WaiterKeeps(states[j - 1], steps[j - 1], id);
    }
  }

  /**
   A waiter of the generation in flight is kept until the outcome of that fetch is published or
   its deadline has come, unless its request is dropped.
   */
  lemma {:induction false} WaitsForTheOutcome(states: seq<State>, steps: seq<Step>, i: nat, j: nat, id: nat)
    requires Run(states, steps) && i <= j < |states| && Active(states[i], id)
    requires states[i].status.InFlight? && states[i].status.generation == states[i].waiters[id].generation
    requires j <= |steps| && forall k :: i <= k < j ==> !steps[k].PublishOutcome? && steps[k] != Abandon(id)
    requires forall k :: i <= k < j ==> states[k].now < states[i].waiters[id].deadline
    ensures Active(states[j], id)
    decreases j
  {
    hide Do, Enabled, Run;
    if i < j {
      WaitsForTheOutcome(states, steps, i, j - 1, id);
      StatusStaysUntilOutcome(states, steps, i, j - 1);
      WaiterKeepsInRun(states, steps, i, j - 1, id);
      StaysActive(states, steps, j - 1, id);
    }
  }

  /** What an active waiter that is not about to look is there for. */
  ghost predicate WaitsForSomething(s: State, w: Waiter) {
    w.generation == s.status.generation ==>
      && (w.at.Waiting? ==> s.status.InFlight? || w.generation in s.nudgedFor)
      && (w.at.Napping? && w.seen == s.version ==> s.status == OnDemandGap(w.generation, w.at.until))
  }

  ghost predicate NobodyWaitsInVain(s: State) {
    forall id :: id in s.waiters ==> WaitsForSomething(s, s.waiters[id])
  }

  lemma StepWaitsForSomething(s: State, step: Step, id: nat)
    requires GenerationInv(s) && Enabled(s, step) && id in s.waiters && WaiterOk(s, s.waiters[id])
    requires WaitsForSomething(s, s.waiters[id])
    ensures id in Do(s, step).waiters && WaitsForSomething(Do(s, step), Do(s, step).waiters[id])
  {
    hide NextDelay, Planned, Entered;
  }

  lemma EnteredWaits(s: State, step: Step, id: nat)
    requires Enabled(s, step) && step == Enter(id)
    ensures WaitsForSomething(Do(s, step), Do(s, step).waiters[id])
  {
  }

  /**
   In every run nobody waits in vain: a waiter that waits has a fetch of its generation in flight
   or has its nudge in, and one that naps does so until the end of the present gap.
   */
  lemma {:induction false} WaitersWaitForSomething(states: seq<State>, steps: seq<Step>, i: nat)
    requires Run(states, steps) && i < |states|
    ensures NobodyWaitsInVain(states[i])
    decreases i
  {
    if i > 0 {
      hide Do, Enabled, NobodyWaitsInVain, Inv;
      WaitersWaitForSomething(states, steps, i - 1);
      RunKeepsInv(states, steps, i - 1);
      NobodyStartsInVain(states[i - 1], steps[i - 1]);
    }
  }

  lemma NobodyStartsInVain(s: State, step: Step)
    requires Inv(s) && Enabled(s, step) && NobodyWaitsInVain(s)
    ensures NobodyWaitsInVain(Do(s, step))
  {
    hide Do, Enabled, WaitsForSomething, GenerationInv, NudgeInv, TimerInv, StatusInv, WaiterOk;
    var t := Do(s, step);
    forall id | id in t.waiters
      ensures WaitsForSomething(t, t.waiters[id])
    {
      OnlyEnterAddsWaiters(s, step, id);
      if id in s.waiters {
        StepWaitsForSomething(s, step, id);
      } else {
        EnteredWaits(s, step, id);
      }
    }
  }

  // ----- delays

  /** How many fetches in a row have failed, up to the last one completed. */
  function FailuresInARow(steps: seq<Step>): nat {
    if steps == [] then 0
    else
      var before, last := FailuresInARow(steps[..|steps| - 1]), steps[|steps| - 1];
      if last.FetchDone? then (if last.ok then 0 else before + 1) else before
  }

  lemma FailuresSnoc(steps: seq<Step>, i: nat)
    requires i < |steps|
    ensures FailuresInARow(steps[..i + 1]) ==
            if steps[i].FetchDone? then (if steps[i].ok then 0 else FailuresInARow(steps[..i]) + 1)
            else FailuresInARow(steps[..i])
  {
    assert steps[..i + 1][..i] == steps[..i];
  }

  lemma FailuresStep(s: State, step: Step)
    requires Enabled(s, step)
    ensures Do(s, step).failures ==
            if step.FetchDone? then (if step.ok then 0 else Min(s.failures + 1, U32_MAX)) else s.failures
  {
    hide NextDelay, Planned, Entered, Checked;
  }

  lemma {:induction false} FailuresAreCounted(states: seq<State>, steps: seq<Step>, i: nat)
    requires Run(states, steps) && i < |states|
    ensures states[i].failures == Min(FailuresInARow(steps[..i]), U32_MAX)
    decreases i
  {
    hide Do, Enabled;
    if i > 0 {
      FailuresAreCounted(states, steps, i - 1);
      FailuresStep(states[i - 1], steps[i - 1]);
      FailuresSnoc(steps, i - 1);
    }
  }

  /** Three seconds doubled with each failure, up to thirty-five. */
  function BackoffSeconds(n: nat): nat {
    if n <= 1 then 3 else if n == 2 then 6 else if n == 3 then 12 else if n == 4 then 24 else 35
  }

  lemma DelayBetween(n: nat, jitter: real)
    requires 0.0 <= jitter <= 1.0
    ensures BackoffSeconds(n) * SECOND <= NextDelay(n, jitter) <= BackoffSeconds(n) * SECOND * 5 / 4
  {
    BaseSecondsTable(n);
    var base := BaseSeconds(n) * SECOND;
    hide BaseSeconds;
    ScaleBounds(base as real, jitter / 4.0);
    assert base as real * 0.25 == (base / 4) as real by { assert base % 4 == 0; }
  }

  /**
   After the n-th failure in a row the next attempt is the n-th backoff away, plus at most a quarter
   of it; a success restarts the count, and the next attempt is a minute away.
   */
  lemma NextAttemptIs(states: seq<State>, steps: seq<Step>, i: nat)
    requires Run(states, steps) && i < |steps| && steps[i].FetchDone?
    ensures var now, n, next := states[i].now, FailuresInARow(steps[..i + 1]), states[i + 1].nextAttempt;
            && next.Some? && states[i + 1].lastCompleted == Some(now)
            && (steps[i].ok ==> n == 0 && next.value == now + 60 * SECOND)
            && (!steps[i].ok ==>
                  && n > 0
                  && now + BackoffSeconds(n) * SECOND <= next.value <= now + BackoffSeconds(n) * SECOND * 5 / 4)
  {
    FailuresAreCounted(states, steps, i);
    FailuresSnoc(steps, i);
    assert Enabled(states[i], steps[i]) && states[i + 1] == Do(states[i], steps[i]);
    hide NextDelay, Planned;
    var failures := Min(states[i].failures + 1, U32_MAX);
    DelayBetween(failures, steps[i].jitter);
    assert BackoffSeconds(failures) == BackoffSeconds(states[i].failures + 1);
  }

  /** What is published after a fetch: the gap of three seconds from its completion,
      or the backoff to the next attempt. */
  ghost predicate OutcomeReady(s: State) {
    s.at.Publishing? ==>
      && s.lastCompleted.Some? && s.nextAttempt.Some?
      && s.at.outcome == if s.failures == 0 then OnDemandGap(s.generation, s.lastCompleted.value + 3 * SECOND)
                         else FailureBackoff(s.generation, s.nextAttempt.value)
  }

  lemma StepOutcomeReady(s: State, step: Step)
    requires OutcomeReady(s) && Enabled(s, step)
    ensures OutcomeReady(Do(s, step))
  {
    hide NextDelay, Entered, Checked;
  }

  lemma {:induction false} AlwaysOutcomeReady(states: seq<State>, steps: seq<Step>, i: nat)
    requires Run(states, steps) && i < |states|
    ensures OutcomeReady(states[i])
    decreases i
  {
    if i > 0 {
      hide Do, Enabled, OutcomeReady;
      AlwaysOutcomeReady(states, steps, i - 1);
      StepOutcomeReady(states[i - 1], steps[i - 1]);
    }
  }

  lemma PublishedOutcome(states: seq<State>, steps: seq<Step>, i: nat)
    requires Run(states, steps) && i < |steps| && steps[i].PublishOutcome?
    ensures var t := states[i + 1];
            && t.lastCompleted.Some? && t.nextAttempt.Some?
            && t.status ==
                if FailuresInARow(steps[..i]) == 0 then OnDemandGap(t.generation, t.lastCompleted.value + 3 * SECOND)
                else FailureBackoff(t.generation, t.nextAttempt.value)
  {
    AlwaysOutcomeReady(states, steps, i);
    FailuresAreCounted(states, steps, i);
    assert Enabled(states[i], steps[i]) && states[i + 1] == Do(states[i], steps[i]);
    hide NextDelay, Planned;
  }
}
