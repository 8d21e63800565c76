/**
 The refresh protocol of the model-binding cache: one refresher task, any number of request
 handlers waiting for it, a nudge channel towards the refresher and a status channel back.
 Steps of different tasks interleave in any order. A step runs from one await point to the next,
 except that sending a nudge, publishing a status and re-reading the nudge after an outcome are
 steps of their own; within a step the clock has one value. A request may be dropped at any time.
 */
module RefreshProtocol {
  import opened Common

  // ----- constants, in nanoseconds

  const SECOND: nat := 1_000_000_000
  const REFRESH_INTERVAL: nat := 60 * SECOND
  const ON_DEMAND_MIN_INTERVAL: nat := 3 * SECOND
  const REFRESH_TIMEOUT: nat := 15 * SECOND
  const RETRY_INITIAL_SECONDS: nat := 3
  const RETRY_MAX_SECONDS: nat := 35
  const U64_LIMIT: nat := 0x1_0000_0000_0000_0000
  const U32_MAX: nat := 0xFFFF_FFFF

  // ----- the retry delay

  function Pow2(n: nat): nat {
    if n == 0 then 1 else 2 * Pow2(n - 1)
  }

  /** `u64::checked_shl`: None from 64 on, otherwise the shifted value truncated to 64 bits. */
  function CheckedShl(x: nat, shift: nat): Option<nat> {
    if shift >= 64 then None else Some(x * Pow2(shift) % U64_LIMIT)
  }

  function BaseSeconds(failures: nat): nat {
    var shift := if failures == 0 then 0 else failures - 1;
    var shifted := CheckedShl(RETRY_INITIAL_SECONDS, shift);
    var seconds := if shifted.Some? then shifted.value else U64_LIMIT - 1;
    if seconds < RETRY_MAX_SECONDS then seconds else RETRY_MAX_SECONDS
  }

  lemma ScaleBounds(x: real, f: real)
    requires 0.0 <= x && 0.0 <= f <= 0.25
    ensures 0.0 <= x * f <= x * 0.25
  {
  }

  /** `next_delay`: the base plus up to a quarter of it. */
  function NextDelay(failures: nat, jitter: real): nat
    requires 0.0 <= jitter <= 1.0
  {
    var base: nat := BaseSeconds(failures) * SECOND;
    ScaleBounds(base as real, jitter / 4.0);
    base + (base as real * (jitter / 4.0)).Floor
  }

  lemma {:induction false} Pow2Monotone(a: nat, b: nat)
    requires a <= b
    ensures 1 <= Pow2(a) <= Pow2(b)
    decreases b
  {
    if a < b {
      Pow2Monotone(a, b - 1);
    } else if a > 0 {
      Pow2Monotone(a - 1, b - 1);
    }
  }

  lemma {:induction false} Pow2Add(a: nat, b: nat)
    ensures Pow2(a + b) == Pow2(a) * Pow2(b)
    decreases b
  {
    if b > 0 {
      Pow2Add(a, b - 1);
      assert Pow2(a) * Pow2(b) == 2 * (Pow2(a) * Pow2(b - 1));
    }
  }

  lemma Pow2Of62()
    ensures Pow2(62) == 0x4000_0000_0000_0000 && Pow2(63) == 0x8000_0000_0000_0000
  {
    assert Pow2(7) == 128 && Pow2(3) == 8;
    Pow2Add(7, 7);
    Pow2Add(14, 14);
    Pow2Add(28, 28);
    Pow2Add(56, 3);
    Pow2Add(59, 3);
  }

  /** The truncating shift never produces a short delay: three doubled up to 24, then 35. */
  lemma BaseSecondsTable(failures: nat)
    ensures BaseSeconds(failures) ==
            if failures <= 1 then 3 else if failures == 2 then 6 else if failures == 3 then 12
            else if failures == 4 then 24 else 35
  {
    var shift := if failures == 0 then 0 else failures - 1;
    assert Pow2(0) == 1 && Pow2(1) == 2 && Pow2(2) == 4 && Pow2(3) == 8 && Pow2(4) == 16;
    Pow2Of62();
    if 4 <= shift <= 62 {
      Pow2Monotone(4, shift);
      Pow2Monotone(shift, 62);
      assert 48 <= 3 * Pow2(shift) < U64_LIMIT;
    }
  }

  /** For every failure count and jitter, the retry delay lies between 3 s and 43.75 s. */
  lemma RetryDelayBounds(failures: nat, jitter: real)
    requires 0.0 <= jitter <= 1.0
    ensures 3 * SECOND <= NextDelay(failures, jitter) <= 43_750_000_000
  {
    BaseSecondsTable(failures);
    var base := BaseSeconds(failures) * SECOND;
    var extra := base as real * (jitter / 4.0);
    ScaleBounds(base as real, jitter / 4.0);
    assert 0.0 <= extra <= base as real * 0.25;
    assert extra <= 35.0 * 1_000_000_000.0 * 0.25;
  }

  // ----- state

  datatype Status =
    | InFlight(generation: nat, deadline: nat)
    | FailureBackoff(generation: nat, until: nat)
    | OnDemandGap(generation: nat, until: nat)

  /** Where the refresher is in its loop. */
  datatype RefresherAt =
    | NotStarted
    | Top
    | Asleep(demandAt: Option<nat>, wakeAt: nat)
    | Judging(demandAt: Option<nat>)
    | Starting(startNow: nat)
    | Fetching
    | Publishing(outcome: Status)
    | Rereading

  /** Where a waiter is in its loop. */
  datatype WaiterAt = Checking | Nudging | Waiting | Napping(until: nat) | Returned

  datatype Waiter = Waiter(generation: nat, entered: nat, deadline: nat, seen: nat, at: WaiterAt)

  datatype State = State(
    now: nat,
    // the refresher's local variables
    at: RefresherAt,
    failures: nat,
    lastCompleted: Option<nat>,
    nextAttempt: Option<nat>,
    generation: nat,
    nudgePending: bool,
    // the nudge channel: its value, and whether the refresher has yet to see the last write
    nudge: nat,
    nudgeUnseen: bool,
    // the status channel: its value and version
    status: Status,
    version: nat,
    waiters: map<nat, Waiter>,
    // observations: fetches completed so far, and generations some waiter has nudged for
    completed: nat,
    nudgedFor: set<nat>)

  function Initial(now: nat): State {
    State(now, NotStarted, 0, None, None, 0, false, 0, false, OnDemandGap(0, now), 0, map[], 0, {})
  }

  datatype Step =
    | Tick(to: nat)
    | Serve
    | Enter(id: nat)
    | Check(id: nat)
    | SendNudge(id: nat)
    | StatusChanged(id: nat)
    | NapOver(id: nat)
    | TimedOut(id: nat)
    | Abandon(id: nat)
    | LoopTop
    | SleepOver
    | SleepNudged
    | Judge
    | PublishInFlight
    | FetchDone(ok: bool, jitter: real)
    | PublishOutcome
    | Reread

  predicate Active(s: State, id: nat) {
    id in s.waiters && !s.waiters[id].at.Returned?
  }

  predicate Enabled(s: State, step: Step) {
    match step
    // time-outs fire at their deadline: the clock does not run past one that is due
    case Tick(to) =>
      s.now <= to && forall id :: id in s.waiters && Active(s, id) ==> to <= s.now || to <= s.waiters[id].deadline
    case Serve => s.at.NotStarted?
    case Enter(id) => id !in s.waiters
    case Check(id) => Active(s, id) && s.waiters[id].at.Checking?
    case SendNudge(id) => Active(s, id) && s.waiters[id].at.Nudging?
    case StatusChanged(id) =>
      Active(s, id) && (s.waiters[id].at.Waiting? || s.waiters[id].at.Napping?) && s.waiters[id].seen != s.version
    case NapOver(id) => Active(s, id) && s.waiters[id].at.Napping? && s.waiters[id].at.until <= s.now
    case TimedOut(id) => Active(s, id) && s.waiters[id].deadline <= s.now
    case Abandon(id) => Active(s, id)
    case LoopTop => s.at.Top?
    case SleepOver => s.at.Asleep? && s.at.wakeAt <= s.now
    case SleepNudged => s.at.Asleep? && s.nudgeUnseen
    case Judge => s.at.Judging?
    case PublishInFlight => s.at.Starting?
    case FetchDone(ok, jitter) => s.at.Fetching? && 0.0 <= jitter <= 1.0
    case PublishOutcome => s.at.Publishing?
    case Reread => s.at.Rereading?
  }

  function Max(a: nat, b: nat): nat { if a < b then b else a }

  function Min(a: nat, b: nat): nat { if a < b then a else b }

  function GetOr(o: Option<nat>, default: nat): nat { if o.Some? then o.value else default }

  /** `wait_for_binding_refresh` up to its loop: subscribe, start the refresher once, read the status. */
  function Entered(s: State): Waiter {
    var w := Waiter(s.status.generation, s.now, s.now, s.version, Checking);
    match s.status
    case InFlight(_, deadline) => w.(deadline := deadline)
    case FailureBackoff(_, until) =>
      if s.now < until then w.(at := Returned) else w.(deadline := s.now + REFRESH_TIMEOUT)
    case OnDemandGap(_, until) => w.(deadline := Max(until, s.now) + REFRESH_TIMEOUT)
  }

  /** One pass of the waiter's loop, up to where it waits or nudges. */
  function Checked(s: State, w: Waiter): WaiterAt {
    if s.status.generation != w.generation then Returned
    else match s.status
      case InFlight(_, _) => Waiting
      case FailureBackoff(_, until) => if s.now < until then Returned else Nudging
      case OnDemandGap(_, until) => if s.now < until then Napping(until) else Nudging
  }

  /** When a pending nudge may start a fetch. */
  function DemandAt(s: State): nat {
    Max(
      if s.lastCompleted.Some? then s.lastCompleted.value + ON_DEMAND_MIN_INTERVAL else s.now,
      if s.failures > 0 then GetOr(s.nextAttempt, s.now) else s.now)
  }

  /** The refresher's plan at the top of its loop, once it has looked at the nudge channel. */
  function Planned(s: State): RefresherAt {
    var demandAt := if s.nudgePending then Some(DemandAt(s)) else None;
    var periodicAt := GetOr(s.nextAttempt, s.now);
    var wakeAt := if demandAt.Some? then Min(periodicAt, demandAt.value) else periodicAt;
    if s.now < wakeAt then Asleep(demandAt, wakeAt) else Judging(demandAt)
  }

  function SeeNudge(s: State): State {
    s.(nudgePending := s.nudge >= s.generation, nudgeUnseen := false)
  }

  predicate PeriodicDue(s: State) {
    s.nextAttempt.None? || s.nextAttempt.value <= s.now
  }

  predicate DemandDue(s: State) {
    s.at.Judging? && s.at.demandAt.Some? && s.at.demandAt.value <= s.now
  }

  function Completed(s: State, ok: bool, jitter: real): State
    requires 0.0 <= jitter <= 1.0
  {
    var failures := if ok then 0 else Min(s.failures + 1, U32_MAX);
    var delay := if ok then REFRESH_INTERVAL else NextDelay(failures, jitter);
    var next := s.now + delay;
    var generation := s.generation + 1;
    s.(failures := failures,
       lastCompleted := Some(s.now),
       nextAttempt := Some(next),
       generation := generation,
       completed := s.completed + 1,
       at := Publishing(
         if ok then OnDemandGap(generation, s.now + ON_DEMAND_MIN_INTERVAL) else FailureBackoff(generation, next)))
  }

  function SetWaiter(s: State, id: nat, w: Waiter): State {
    s.(waiters := s.waiters[id := w])
  }

  function Do(s: State, step: Step): State
    requires Enabled(s, step)
  {
    match step
    case Tick(to) => s.(now := to)
    // the server starts the refresher before any request; a waiter that comes first does so itself
    case Serve => s.(at := Top, nudgeUnseen := false)
    case Enter(id) =>
      var t := SetWaiter(s, id, Entered(s));
      if s.at.NotStarted? then t.(at := Top, nudgeUnseen := false) else t
    case Check(id) =>
      SetWaiter(s, id, s.waiters[id].(seen := s.version, at := Checked(s, s.waiters[id])))
    case SendNudge(id) =>
      var w := s.waiters[id];
      SetWaiter(s, id, w.(at := Waiting)).(
        nudge := Max(s.nudge, w.generation), nudgeUnseen := true, nudgedFor := s.nudgedFor + {w.generation})
    case StatusChanged(id) => SetWaiter(s, id, s.waiters[id].(seen := s.version, at := Checking))
    case NapOver(id) => SetWaiter(s, id, s.waiters[id].(at := Checking))
    case TimedOut(id) => SetWaiter(s, id, s.waiters[id].(at := Returned))
    // a dropped request waits no longer, whatever it was about to do
    case Abandon(id) => SetWaiter(s, id, s.waiters[id].(at := Returned))
    case LoopTop => var t := if s.nudgeUnseen then SeeNudge(s) else s; t.(at := Planned(t))
    case SleepOver => s.(at := Judging(s.at.demandAt))
    case SleepNudged => SeeNudge(s).(at := Top)
    case Judge =>
      if PeriodicDue(s) || DemandDue(s) then s.(nudgeUnseen := false, at := Starting(s.now)) else s.(at := Top)
    case PublishInFlight =>
      s.(status := InFlight(s.generation, s.at.startNow + REFRESH_TIMEOUT), version := s.version + 1, at := Fetching)
    case FetchDone(ok, jitter) => Completed(s, ok, jitter)
    case PublishOutcome => s.(status := s.at.outcome, version := s.version + 1, at := Rereading)
    case Reread => SeeNudge(s).(at := Top)
  }

  // ----- the invariant

  predicate Planning(s: State) {
    s.at.Top? || s.at.Asleep? || s.at.Judging?
  }

  /** Generations: the status shows the refresher's own, except while an outcome awaits publication. */
  ghost predicate GenerationInv(s: State) {
    && s.generation == s.completed
    && s.status.generation == (if s.at.Publishing? then s.generation - 1 else s.generation)
    && (s.at.Publishing? ==> s.at.outcome.generation == s.generation && !s.at.outcome.InFlight?)
    && (s.status.InFlight? <==> s.at.Fetching? || s.at.Publishing?)
    && (s.at.NotStarted? ==> s.waiters == map[] && s.generation == 0)
    && (s.at.Publishing? || s.at.Rereading? ==> s.generation > 0)
  }

  /** Nudges: none is from the future, none for the current generation is lost, none is stale. */
  ghost predicate NudgeInv(s: State) {
    && s.nudge <= s.status.generation
    && (forall g :: g in s.nudgedFor ==> g <= s.nudge)
    && (s.nudge > 0 || s.nudgeUnseen ==> s.nudge in s.nudgedFor)
    && (Planning(s) && s.nudgePending ==> s.generation in s.nudgedFor)
    && (Planning(s) && s.generation in s.nudgedFor ==> s.nudgePending || s.nudgeUnseen)
    && (s.at.NotStarted? ==> !s.nudgePending && s.nudgedFor == {})
  }

  predicate DemandRespectsLimits(s: State, d: nat) {
    && (s.lastCompleted.Some? ==> s.lastCompleted.value + ON_DEMAND_MIN_INTERVAL <= d)
    && (s.failures > 0 ==> s.nextAttempt.Some? && s.nextAttempt.value <= d)
  }

  /** When a nudge is served at the earliest: after the minimum gap, and after any failure backoff. */
  function EarliestDemand(s: State): nat {
    if s.failures > 0 then GetOr(s.nextAttempt, 0) else GetOr(s.lastCompleted, 0) + ON_DEMAND_MIN_INTERVAL
  }

  /** The refresher's timers. */
  ghost predicate TimerInv(s: State) {
    && (s.lastCompleted.Some? <==> s.nextAttempt.Some?)
    && (s.failures > 0 ==> s.lastCompleted.Some?)
    && (s.lastCompleted.Some? ==>
          && s.lastCompleted.value <= s.now
          && s.lastCompleted.value + ON_DEMAND_MIN_INTERVAL <= s.nextAttempt.value
          && s.nextAttempt.value <= s.lastCompleted.value + REFRESH_INTERVAL)
    && ((s.at.Asleep? || s.at.Judging?) && s.at.demandAt.Some? ==>
          s.nudgePending && DemandRespectsLimits(s, s.at.demandAt.value))
    && (s.at.Asleep? ==>
          && s.nextAttempt.Some?
          && s.at.wakeAt == (if s.at.demandAt.Some? then Min(s.nextAttempt.value, s.at.demandAt.value)
                             else s.nextAttempt.value)
          && (s.nudgePending ==> s.at.demandAt.Some?))
    && (s.at.Judging? ==> PeriodicDue(s) || DemandDue(s))
    && (s.at.Asleep? && s.at.demandAt.Some? ==> s.at.demandAt.value == EarliestDemand(s))
    && (s.at.Starting? ==> s.at.startNow <= s.now && DemandRespectsLimits(s, s.at.startNow))
  }

  ghost predicate UntilInv(s: State, status: Status) {
    match status
    case InFlight(_, deadline) => deadline <= s.now + REFRESH_TIMEOUT
    case OnDemandGap(_, until) => until <= s.now + ON_DEMAND_MIN_INTERVAL
    case FailureBackoff(_, until) => s.failures > 0 && Some(until) == s.nextAttempt
  }

  ghost predicate StatusInv(s: State) {
    && UntilInv(s, s.status)
    && (s.at.Publishing? ==> UntilInv(s, s.at.outcome))
  }

  ghost predicate WaiterOk(s: State, w: Waiter) {
    && w.generation <= s.status.generation
    && w.seen <= s.version
    && w.entered <= s.now
    && (!w.at.Returned? ==> w.deadline <= w.entered + REFRESH_TIMEOUT + ON_DEMAND_MIN_INTERVAL)
    && (!w.at.Returned? ==> s.now <= Max(w.entered, w.deadline))
    && (w.at.Waiting? || w.at.Napping? || w.at.Nudging? ==> w.seen == s.version ==> s.status.generation == w.generation)
  }

  ghost predicate WaiterInv(s: State) {
    forall id :: id in s.waiters ==> WaiterOk(s, s.waiters[id])
  }

  ghost predicate Inv(s: State) {
    GenerationInv(s) && NudgeInv(s) && TimerInv(s) && StatusInv(s) && WaiterInv(s)
  }

  lemma InitialInv(now: nat)
    ensures Inv(Initial(now))
  {
  }

  lemma StepKeepsGenerations(s: State, step: Step)
    requires Inv(s) && Enabled(s, step)
    ensures GenerationInv(Do(s, step))
  {
    hide TimerInv, NudgeInv, StatusInv, WaiterInv, NextDelay, Planned;
    if step.LoopTop? {
      PlannedIsPlanning(if s.nudgeUnseen then SeeNudge(s) else s);
    }
  }

  lemma PlannedIsPlanning(s: State)
    ensures Planned(s).Asleep? || Planned(s).Judging?
  {
  }

  lemma StepKeepsNudges(s: State, step: Step)
    requires Inv(s) && Enabled(s, step)
    ensures NudgeInv(Do(s, step))
  {
    hide TimerInv, StatusInv, NextDelay, Planned;
    if step.LoopTop? {
      PlannedIsPlanning(if s.nudgeUnseen then SeeNudge(s) else s);
    }
    if step.SendNudge? {
      assert WaiterOk(s, s.waiters[step.id]);
    }
  }

  lemma StepKeepsTimers(s: State, step: Step)
    requires Inv(s) && Enabled(s, step)
    ensures TimerInv(Do(s, step))
  {
    hide WaiterInv, NudgeInv, StatusInv, GenerationInv, NextDelay;
    if step.FetchDone? {
      CompletedTimers(s, step.ok, step.jitter);
    } else if step.LoopTop? {
      var t := if s.nudgeUnseen then SeeNudge(s) else s;
      PlannedTimers(s, t);
    } else {
      hide Planned, Completed;
    }
  }

  lemma CompletedTimers(s: State, ok: bool, jitter: real)
    requires 0.0 <= jitter <= 1.0
    ensures TimerInv(Completed(s, ok, jitter))
  {
    hide NextDelay;
    RetryDelayBounds(Min(s.failures + 1, U32_MAX), jitter);
  }

  lemma PlannedTimers(s: State, t: State)
    requires TimerInv(s) && s.at.Top? && (t == s || t == SeeNudge(s))
    ensures TimerInv(t.(at := Planned(t)))
  {
    hide NextDelay;
  }

  lemma StepKeepsStatus(s: State, step: Step)
    requires Inv(s) && Enabled(s, step)
    ensures StatusInv(Do(s, step))
  {
    hide WaiterInv, NudgeInv, NextDelay, Planned;
    if step.FetchDone? {
      RetryDelayBounds(Min(s.failures + 1, U32_MAX), step.jitter);
    }
    if step.LoopTop? {
      PlannedIsPlanning(if s.nudgeUnseen then SeeNudge(s) else s);
    }
  }

  lemma StepKeepsWaiters(s: State, step: Step)
    requires Inv(s) && Enabled(s, step)
    ensures WaiterInv(Do(s, step))
  {
    hide NudgeInv, TimerInv, StatusInv, GenerationInv, WaiterOk, Do;
    var t := Do(s, step);
    forall id | id in t.waiters
      ensures WaiterOk(t, t.waiters[id])
    {
      OnlyEnterAddsWaiters(s, step, id);
      if id in s.waiters {
        WaiterStep(s, step, id);
      } else {
        EnteredOk(s, step, id);
      }
    }
  }

  lemma OnlyEnterAddsWaiters(s: State, step: Step, id: nat)
    requires Enabled(s, step) && id in Do(s, step).waiters
    ensures id in s.waiters || (step.Enter? && step.id == id)
  {
    hide NextDelay, Planned;
  }

  lemma EnteredOk(s: State, step: Step, id: nat)
    requires StatusInv(s) && GenerationInv(s) && TimerInv(s) && Enabled(s, step) && step == Enter(id)
    ensures WaiterOk(Do(s, step), Do(s, step).waiters[id])
  {
    hide TimerInv;
  }

  /** A waiter's standing survives its own steps, everyone else's, and the clock. */
  lemma WaiterStep(s: State, step: Step, id: nat)
    requires GenerationInv(s) && Enabled(s, step) && id in s.waiters && WaiterOk(s, s.waiters[id])
    ensures id in Do(s, step).waiters && WaiterOk(Do(s, step), Do(s, step).waiters[id])
  {
    hide NextDelay, Planned, Entered;
    assert step.Tick? ==> !Active(s, id) || step.to <= s.now || step.to <= s.waiters[id].deadline;
  }

  /** Every step of every task keeps the invariant. */
  lemma StepKeepsInv(s: State, step: Step)
    requires Inv(s) && Enabled(s, step)
    ensures Inv(Do(s, step))
  {
    hide GenerationInv, NudgeInv, TimerInv, StatusInv, WaiterInv, Do;
    StepKeepsGenerations(s, step);
    StepKeepsNudges(s, step);
    StepKeepsTimers(s, step);
    StepKeepsStatus(s, step);
    StepKeepsWaiters(s, step);
  }

  // ----- runs

  /** A run from some start instant: any interleaving of enabled steps. */
  ghost predicate Run(states: seq<State>, steps: seq<Step>) {
    && |states| == |steps| + 1
    && states[0] == Initial(states[0].now)
    && forall i :: 0 <= i < |steps| ==> Enabled(states[i], steps[i]) && states[i + 1] == Do(states[i], steps[i])
  }

  lemma {:induction false} RunKeepsInv(states: seq<State>, steps: seq<Step>, i: nat)
    requires Run(states, steps) && i < |states|
    ensures Inv(states[i])
    decreases i
  {
    hide Inv, Do, Enabled;
    if i == 0 {
      InitialInv(states[0].now);
    } else {
      RunKeepsInv(states, steps, i - 1);
      StepKeepsInv(states[i - 1], steps[i - 1]);
    }
  }

  function Count(steps: seq<Step>, p: Step -> bool): nat {
    if steps == [] then 0
    else Count(steps[..|steps| - 1], p) + (if p(steps[|steps| - 1]) then 1 else 0)
  }

  predicate IsStart(step: Step) {
    step.PublishInFlight?
  }

  predicate IsCompletion(step: Step) {
    step.FetchDone?
  }

  /** At most one fetch is in flight, and each completed fetch raises the generation by one. */
  lemma {:induction false} OneFetchAtATime(states: seq<State>, steps: seq<Step>, i: nat)
    requires Run(states, steps) && i < |states|
    ensures Count(steps[..i], IsStart) == Count(steps[..i], IsCompletion) + (if states[i].at.Fetching? then 1 else 0)
    ensures states[i].generation == Count(steps[..i], IsCompletion)
    decreases i
  {
    if i > 0 {
      OneFetchAtATime(states, steps, i - 1);
      assert steps[..i][..i - 1] == steps[..i - 1] && steps[..i][i - 1] == steps[i - 1];
      var s, step := states[i - 1], steps[i - 1];
      assert Enabled(s, step) && states[i] == Do(s, step);
      CompletionOnlyAtFetchDone(s, step);
    }
  }

  lemma CompletionOnlyAtFetchDone(s: State, step: Step)
    requires Enabled(s, step)
    ensures var t := Do(s, step);
            && t.generation == s.generation + (if step.FetchDone? then 1 else 0)
            && (step.PublishInFlight? ==> !s.at.Fetching? && t.at.Fetching?)
            && (step.FetchDone? ==> s.at.Fetching? && !t.at.Fetching?)
            && (!step.PublishInFlight? && !step.FetchDone? ==> s.at.Fetching? == t.at.Fetching?)
  {
    hide NextDelay, Planned;
    if step.LoopTop? {
      PlannedIsPlanning(if s.nudgeUnseen then SeeNudge(s) else s);
    }
  }

  /**
   A nudge is never from a generation that does not exist yet, and one for the current
   generation is never lost: the refresher is fetching for it already, or still has it pending or
   unseen. Asleep on a nudge it knows of, it sleeps no longer than the gap or backoff demands.
   */
  lemma NudgeIsNeverLost(states: seq<State>, steps: seq<Step>, i: nat)
    requires Run(states, steps) && i < |states|
    ensures var s := states[i];
            && s.nudge <= s.generation
            && (s.generation in s.nudgedFor ==>
                  && s.nudge == s.generation
                  && (s.at.Starting? || s.at.Fetching? || s.at.Rereading? || s.nudgePending || s.nudgeUnseen)
                  && (s.at.Rereading? ==> Do(s, Reread).nudgePending)
                  && (s.at.Asleep? && !s.nudgeUnseen ==> s.at.wakeAt <= EarliestDemand(s)))
  {
    RunKeepsInv(states, steps, i);
  }

  /** The branch of the refresher's loop in which nothing is due is never taken. */
  lemma SomethingIsAlwaysDue(states: seq<State>, steps: seq<Step>, i: nat)
    requires Run(states, steps) && i < |steps| && steps[i].Judge?
    ensures states[i + 1].at.Starting?
  {
    RunKeepsInv(states, steps, i);
    assert Enabled(states[i], steps[i]);
  }

  /** Stale nudges start nothing: before its periodic time, a fetch starts only on demand for its own generation. */
  lemma StaleNudgesStartNothing(states: seq<State>, steps: seq<Step>, i: nat)
    requires Run(states, steps) && i < |steps| && steps[i].Judge?
    ensures PeriodicDue(states[i]) || states[i].generation in states[i].nudgedFor
  {
    RunKeepsInv(states, steps, i);
    assert Enabled(states[i], steps[i]);
  }

  lemma StepRemembers(s: State, step: Step)
    requires Enabled(s, step)
    ensures var t := Do(s, step);
            && s.now <= t.now
            && (if step.FetchDone? then t.lastCompleted == Some(s.now)
                else t.lastCompleted == s.lastCompleted && t.failures == s.failures && t.nextAttempt == s.nextAttempt)
  {
    hide NextDelay, Planned;
  }

  /** A completion stays on record, with the failure backoff it set, until the next completion. */
  lemma {:induction false} CompletionIsRemembered(states: seq<State>, steps: seq<Step>, i: nat, j: nat)
    requires Run(states, steps) && i < j < |states| && steps[i].FetchDone?
    ensures states[i].now <= states[j].now
    ensures states[j].lastCompleted.Some? && states[i].now <= states[j].lastCompleted.value
    ensures (forall k :: i < k < j ==> !steps[k].FetchDone?) ==>
              && states[j].failures == states[i + 1].failures
              && states[j].nextAttempt == states[i + 1].nextAttempt
    decreases j
  {
    hide Do, Enabled;
    StepRemembers(states[j - 1], steps[j - 1]);
    if i + 1 < j {
      CompletionIsRemembered(states, steps, i, j - 1);
    }
  }

  /**
   A fetch starts at least three seconds after every earlier completion, and after a failed one
   not before the backoff it set has passed.
   */
  lemma FetchesAreSpaced(states: seq<State>, steps: seq<Step>, i: nat, j: nat)
    requires Run(states, steps) && i < j < |steps| && steps[i].FetchDone? && steps[j].PublishInFlight?
    ensures states[i].now + 3 * SECOND <= states[j].now
    ensures !steps[i].ok && (forall k :: i < k < j ==> !steps[k].FetchDone?) ==>
              states[i + 1].nextAttempt.Some? && states[i + 1].nextAttempt.value <= states[j].now
  {
    CompletionIsRemembered(states, steps, i, j);
    RunKeepsInv(states, steps, j);
    assert Enabled(states[j], steps[j]);
    if !steps[i].ok {
      assert Enabled(states[i], steps[i]);
      assert states[i + 1].failures > 0;
    }
  }

  /**
   One completion releases every waiter of its generation: once the outcome is published, each
   waiter there is of an earlier generation, none of them can sleep through the change, and each
   returns at its next look at the status.
   */
  lemma CompletionReleasesWaiters(states: seq<State>, steps: seq<Step>, i: nat, id: nat)
    requires Run(states, steps) && i < |steps| && steps[i].PublishOutcome?
    requires Active(states[i], id)
    ensures states[i].waiters[id].generation < states[i + 1].status.generation
    ensures ReleasedWaiter(states[i + 1], id)
  {
    RunKeepsInv(states, steps, i);
    assert Enabled(states[i], steps[i]);
    assert WaiterOk(states[i], states[i].waiters[id]);
    RunKeepsInv(states, steps, i + 1);
    OvertakenWaiterIsReleased(states[i + 1], id);
  }

  /** Nothing but a due nudge of its own stands between this waiter and its return. */
  ghost predicate ReleasedWaiter(s: State, id: nat) {
    Active(s, id) ==>
      var at := s.waiters[id].at;
      && (at.Waiting? || at.Napping? ==>
          Enabled(s, StatusChanged(id)) && Do(s, StatusChanged(id)).waiters[id].at.Checking?)
      && (at.Checking? ==> Do(s, Check(id)).waiters[id].at.Returned?)
      && (at.Nudging? ==> Enabled(Do(s, SendNudge(id)), StatusChanged(id)))
  }

  lemma OvertakenWaiterIsReleased(s: State, id: nat)
    requires Inv(s) && Active(s, id) && s.waiters[id].generation < s.status.generation
    ensures ReleasedWaiter(s, id)
  {
    assert WaiterOk(s, s.waiters[id]);
  }

  /** No waiter is kept longer than eighteen seconds. */
  lemma WaitersReturnInTime(states: seq<State>, steps: seq<Step>, i: nat, id: nat)
    requires Run(states, steps) && i < |states| && Active(states[i], id)
    ensures states[i].now <= states[i].waiters[id].entered + 18 * SECOND
    ensures states[i].waiters[id].deadline <= states[i].now ==> Enabled(states[i], TimedOut(id))
  {
    RunKeepsInv(states, steps, i);
    assert WaiterOk(states[i], states[i].waiters[id]);
  }
}
