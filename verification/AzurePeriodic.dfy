/** What keeps running after boot: failure tolerance, the deployment poll's staleness, the boot refresh. */
module AzurePeriodic {
  import opened Common
  import opened AzureAudit

  const U32_MAX: nat := 0xFFFF_FFFF
  const DEPLOYMENT_STALE_INTERVALS: nat := 2

  datatype Operation = CaptureAudit | DeploymentBinding

  datatype Outcome = Success | Failure(kind: ErrorKind)

  // ----- record_result

  datatype Counters = Counters(capture: nat, deployment: nat)

  function Count(c: Counters, op: Operation): nat {
    if op.CaptureAudit? then c.capture else c.deployment
  }

  function WithCount(c: Counters, op: Operation, n: nat): Counters {
    if op.CaptureAudit? then c.(capture := n) else c.(deployment := n)
  }

  function SaturatingIncrement(n: nat): nat {
    if n < U32_MAX then n + 1 else U32_MAX
  }

  /** The counters after a result, and whether it stops the data plane. */
  function Recorded(c: Counters, op: Operation, result: Outcome, limit: nat): (Counters, bool) {
    match result
    case Success => (WithCount(c, op, 0), false)
    case Failure(Definitive) => (c, true)
    case Failure(Transient) =>
      var n := SaturatingIncrement(Count(c, op));
      (WithCount(c, op, n), n >= limit)
  }

  class TargetState {
    var captureFailures: nat
    var deploymentFailures: nat

    ghost function Value(): Counters
      reads this
    {
      Counters(captureFailures, deploymentFailures)
    }

    constructor ()
      ensures Value() == Counters(0, 0)
    {
      captureFailures, deploymentFailures := 0, 0;
    }

    /** `record_result`: true is a reason to shut down. */
    method RecordResult(result: Outcome, operation: Operation, limit: nat) returns (fatal: bool)
      modifies this
      ensures (Value(), fatal) == Recorded(old(Value()), operation, result, limit)
    {
      match result
      case Success =>
        match operation {
          case CaptureAudit => captureFailures := 0;
          case DeploymentBinding => deploymentFailures := 0;
        }
        return false;
      case Failure(Definitive) =>
        return true;
      case Failure(Transient) =>
        var n := 0;
        match operation {
          case CaptureAudit =>
            captureFailures := SaturatingIncrement(captureFailures);
            n := captureFailures;
          case DeploymentBinding =>
            deploymentFailures := SaturatingIncrement(deploymentFailures);
            n := deploymentFailures;
        }
        return n >= limit;
    }
  }

  /** The results of one target, in the order in which they were recorded. */
  datatype Report = Report(op: Operation, result: Outcome)

  function After(reports: seq<Report>, limit: nat): Counters {
    if reports == [] then Counters(0, 0)
    else
      var last := reports[|reports| - 1];
      Recorded(After(reports[..|reports| - 1], limit), last.op, last.result, limit).0
  }

  predicate FatalLast(reports: seq<Report>, limit: nat)
    requires reports != []
  {
    var last := reports[|reports| - 1];
    Recorded(After(reports[..|reports| - 1], limit), last.op, last.result, limit).1
  }

  /** The results of one operation alone. */
  function ResultsOf(reports: seq<Report>, op: Operation): seq<Outcome> {
    if reports == [] then []
    else
      var last := reports[|reports| - 1];
      ResultsOf(reports[..|reports| - 1], op) + (if last.op == op then [last.result] else [])
  }

  /** The last n results are all transient failures. */
  ghost predicate TransientTail(results: seq<Outcome>, n: nat) {
    n <= |results| && forall i :: |results| - n <= i < |results| ==> results[i] == Failure(Transient)
  }

  /** No result so far was definitive. */
  ghost predicate NoneDefinitive(reports: seq<Report>) {
    forall i :: 0 <= i < |reports| ==> reports[i].result != Failure(Definitive)
  }

  /** The counter of an operation is the length of its current run of transient failures (saturating). */
  lemma {:induction false} CounterIsStreak(reports: seq<Report>, limit: nat, op: Operation, n: nat)
    requires NoneDefinitive(reports) && n <= 4_294_967_295
    ensures n <= Count(After(reports, limit), op) <==> TransientTail(ResultsOf(reports, op), n)
    decreases |reports|
  {
    if reports != [] {
      var before, last := reports[..|reports| - 1], reports[|reports| - 1];
      var earlier := ResultsOf(before, op);
      if last.op == op {
        var results := earlier + [last.result];
        assert ResultsOf(reports, op) == results;
        if n > 0 {
          CounterIsStreak(before, limit, op, n - 1);
          TailSnoc(earlier, last.result, n);
        }
        CounterIsStreak(before, limit, op, n);
      } else {
        assert ResultsOf(reports, op) == earlier + [];
        assert earlier + [] == earlier;
        CounterIsStreak(before, limit, op, n);
      }
    }
  }

  lemma TailSnoc(earlier: seq<Outcome>, r: Outcome, n: nat)
    requires n > 0
    ensures TransientTail(earlier + [r], n) <==> r == Failure(Transient) && TransientTail(earlier, n - 1)
  {
    var results := earlier + [r];
    if TransientTail(results, n) {
      assert results[|results| - 1] == r;
      forall i | |earlier| - (n - 1) <= i < |earlier|
        ensures earlier[i] == Failure(Transient)
      {
        assert results[i] == earlier[i];
      }
    }
  }

  lemma RecordedIsFatal(c: Counters, op: Operation, result: Outcome, limit: nat)
    requires 1 <= limit <= U32_MAX
    ensures Recorded(c, op, result, limit).1 <==>
            result == Failure(Definitive) || (result == Failure(Transient) && limit - 1 <= Count(c, op))
  {
  }

  /**
   A result is fatal exactly when it is definitive or completes a run of `limit` consecutive
   transient failures of its own operation; the other operation's results play no part.
   */
  lemma FatalExactly(reports: seq<Report>, limit: nat)
    requires reports != [] && 1 <= limit <= 4_294_967_295 && NoneDefinitive(reports[..|reports| - 1])
    ensures FatalLast(reports, limit) <==>
            var last := reports[|reports| - 1];
            last.result == Failure(Definitive) || TransientTail(ResultsOf(reports, last.op), limit)
  {
    var before, last := reports[..|reports| - 1], reports[|reports| - 1];
    var earlier := ResultsOf(before, last.op);
    hide After, TransientTail, Recorded, NoneDefinitive;
    RecordedIsFatal(After(before, limit), last.op, last.result, limit);
    assert ResultsOf(reports, last.op) == earlier + [last.result];
    CounterIsStreak(before, limit, last.op, limit - 1);
    TailSnoc(earlier, last.result, limit);
  }

  // ----- the deployment poll

  /** The instants of one cycle as the clock showed them, and the verification's result. */
  datatype Cycle = Cycle(checkedAt: nat, startedAt: nat, finishesAt: nat, outcome: Outcome, recordedAt: nat)

  datatype Ending = Stale | CycleTimeout | Verdict(outcome: Outcome)

  /** Readings of one cycle never go back, and start no earlier than the last success. */
  predicate Ordered(c: Cycle, since: nat) {
    since <= c.checkedAt <= c.startedAt <= c.finishesAt && c.startedAt <= c.recordedAt
  }

  /** The cycle is cut off by a deadline: at its check, waiting for its tick, or while verifying. */
  predicate CutOff(c: Cycle, deadline: nat) {
    deadline <= c.checkedAt || deadline < c.startedAt || deadline < c.finishesAt
  }

  class DeploymentLoop {
    const interval: nat
    const limit: nat
    const state: TargetState
    /** The channel that readiness reads. */
    var bindingVerifiedAt: nat
    var staleDeadline: nat

    ghost predicate Valid()
      reads this
    {
      staleDeadline == bindingVerifiedAt + DEPLOYMENT_STALE_INTERVALS * interval
    }

    constructor (interval: nat, limit: nat, verifiedAt: nat)
      ensures Valid() && bindingVerifiedAt == verifiedAt && this.interval == interval && this.limit == limit
      ensures fresh(state) && state.Value() == Counters(0, 0)
    {
      this.interval, this.limit := interval, limit;
      state := new TargetState();
      bindingVerifiedAt, staleDeadline := verifiedAt, verifiedAt + DEPLOYMENT_STALE_INTERVALS * interval;
    }

    /** `AzureBindingReadiness::is_fresh` for this target: ready exactly until the loop's own deadline. */
    method IsFresh(now: nat) returns (current: bool)
      requires Valid()
      ensures current <==> now < staleDeadline
      ensures current <==> !Expired(bindingVerifiedAt, 2 * interval, now)
    {
      return now < bindingVerifiedAt + interval * 2;
    }

    /**
     One turn of `run_deployment_binding_loop`; `ended` is a reason to shut down. The deadline
     stays two intervals after the last success, no turn outlives it, and the per-cycle timeout
     is never what ends a verification.
     */
    method Turn(c: Cycle) returns (ended: bool, ending: Ending)
      requires Valid() && Ordered(c, bindingVerifiedAt)
      modifies this, state
      ensures Valid()
      ensures ending == if CutOff(c, old(staleDeadline)) then Stale else Verdict(c.outcome)
      ensures bindingVerifiedAt == if ending == Verdict(Success) then c.recordedAt else old(bindingVerifiedAt)
      ensures ended ==> bindingVerifiedAt == old(bindingVerifiedAt)
      ensures ending.Stale? ==> ended && state.Value() == old(state.Value())
      ensures ending.Verdict? ==>
                (state.Value(), ended) == Recorded(old(state.Value()), DeploymentBinding, c.outcome, limit)
    {
      var cycleTimeout := interval * DEPLOYMENT_STALE_INTERVALS;
      if c.checkedAt >= staleDeadline || c.startedAt > staleDeadline {
        // already stale, or the tick was not ready before the deadline
        return true, Stale;
      }
      // whichever of the two time-outs comes first; at the same instant the inner one is seen
      var innerDeadline := c.startedAt + cycleTimeout;
      var result := c.outcome;
      if c.finishesAt <= innerDeadline && c.finishesAt <= staleDeadline {
        ending := Verdict(c.outcome);
      } else if innerDeadline < staleDeadline {
        ending, result := CycleTimeout, Failure(Definitive);
      } else {
        // a stale binding is an error without a transient mark, hence definitive
        ending, result := Stale, Failure(Definitive);
      }
      ended := state.RecordResult(result, DeploymentBinding, limit);
      if !ended && result.Success? {
        bindingVerifiedAt := c.recordedAt;
        staleDeadline := c.recordedAt + cycleTimeout;
      }
    }
  }

  /** The instant of the last successful verification. */
  function LastSuccess(boot: nat, cycles: seq<Cycle>): nat {
    if cycles == [] then boot
    else
      var last := cycles[|cycles| - 1];
      if last.outcome.Success? then last.recordedAt else LastSuccess(boot, cycles[..|cycles| - 1])
  }

  function ReportsOf(cycles: seq<Cycle>): (r: seq<Report>)
    ensures |r| == |cycles|
  {
    seq(|cycles|, i requires 0 <= i < |cycles| => Report(DeploymentBinding, cycles[i].outcome))
  }

  /** The k-th cycle stays within two intervals of the success before it, and its result is not fatal. */
  ghost predicate Survives(boot: nat, cycles: seq<Cycle>, k: nat, interval: nat, limit: nat)
    requires k < |cycles|
  {
    && !CutOff(cycles[k], LastSuccess(boot, cycles[..k]) + 2 * interval)
    && !FatalLast(ReportsOf(cycles[..k + 1]), limit)
  }

  lemma NextCycle(boot: nat, cycles: seq<Cycle>, k: nat, interval: nat, limit: nat)
    requires k < |cycles|
    ensures LastSuccess(boot, cycles[..k + 1]) ==
            if cycles[k].outcome.Success? then cycles[k].recordedAt else LastSuccess(boot, cycles[..k])
    ensures (After(ReportsOf(cycles[..k + 1]), limit), FatalLast(ReportsOf(cycles[..k + 1]), limit)) ==
            Recorded(After(ReportsOf(cycles[..k]), limit), DeploymentBinding, cycles[k].outcome, limit)
    ensures Survives(boot, cycles, k, interval, limit) <==>
            && !CutOff(cycles[k], LastSuccess(boot, cycles[..k]) + 2 * interval)
            && !Recorded(After(ReportsOf(cycles[..k]), limit), DeploymentBinding, cycles[k].outcome, limit).1
  {
    assert cycles[..k + 1][..k] == cycles[..k];
    assert ReportsOf(cycles[..k + 1])[..k] == ReportsOf(cycles[..k]);
  }

  lemma NoCycleYet(boot: nat, cycles: seq<Cycle>, limit: nat)
    ensures LastSuccess(boot, cycles[..0]) == boot
    ensures After(ReportsOf(cycles[..0]), limit) == Counters(0, 0)
  {
  }

  /**
   The loop over its cycles. As long as it lives, its deadline is two intervals after the last
   success and every verification finished by it; it ends at the first cycle that the deadline
   cuts off or whose result is fatal, and at no other.
   */
  method RunLoop(loop: DeploymentLoop, cycles: seq<Cycle>) returns (lived: nat, ended: bool, ending: Ending)
    requires loop.Valid() && loop.state.Value() == Counters(0, 0)
    requires forall k :: 0 <= k < |cycles| ==> Ordered(cycles[k], LastSuccess(loop.bindingVerifiedAt, cycles[..k]))
    modifies loop, loop.state
    ensures lived <= |cycles| && (ended <==> lived < |cycles|)
    ensures loop.bindingVerifiedAt == LastSuccess(old(loop.bindingVerifiedAt), cycles[..lived])
    ensures loop.staleDeadline == loop.bindingVerifiedAt + 2 * loop.interval
    ensures forall k :: 0 <= k < lived ==> Survives(old(loop.bindingVerifiedAt), cycles, k, loop.interval, loop.limit)
    ensures ended ==> !Survives(old(loop.bindingVerifiedAt), cycles, lived, loop.interval, loop.limit)
    ensures ended ==>
              ending == if CutOff(cycles[lived], loop.staleDeadline) then Stale else Verdict(cycles[lived].outcome)
  {
    hide LastSuccess, After, FatalLast, ReportsOf, Survives, Ordered, CutOff, Recorded;
    lived, ended, ending := 0, false, Verdict(Success);
    NoCycleYet(loop.bindingVerifiedAt, cycles, loop.limit);
    ghost var boot := loop.bindingVerifiedAt;
    while lived < |cycles|
      invariant lived <= |cycles| && loop.Valid() && !ended
      invariant loop.bindingVerifiedAt == LastSuccess(boot, cycles[..lived])
      invariant loop.state.Value() == After(ReportsOf(cycles[..lived]), loop.limit)
      invariant forall k :: 0 <= k < lived ==> Survives(boot, cycles, k, loop.interval, loop.limit)
    {
      NextCycle(boot, cycles, lived, loop.interval, loop.limit);
      ended, ending := loop.Turn(cycles[lived]);
      if ended {
        return;
      }
      lived := lived + 1;
    }
  }

  // ----- the boot refresh

  predicate Expired(verifiedAt: nat, window: nat, now: nat) {
    now >= verifiedAt + window
  }

  /** How long the k-th verification takes, and how it ends. */
  datatype Work = Work(duration: nat, outcome: Outcome)

  /** Targets whose observation is older than the start of the refresh. */
  ghost function Pending(verifiedAt: seq<nat>, start: nat): nat {
    if verifiedAt == [] then 0
    else Pending(verifiedAt[..|verifiedAt| - 1], start) + (if verifiedAt[|verifiedAt| - 1] < start then 1 else 0)
  }

  lemma {:induction false} PendingDrops(v: seq<nat>, start: nat, i: nat, x: nat)
    requires i < |v| && v[i] < start <= x
    ensures Pending(v[i := x], start) == Pending(v, start) - 1
    decreases |v|
  {
    var n := |v| - 1;
    if i == n {
      assert v[i := x][..n] == v[..n];
    } else {
      PendingDrops(v[..n], start, i, x);
      assert v[i := x][..n] == v[..n][i := x];
    }
  }

  datatype RefreshError = TimedOut | VerificationFailed(kind: ErrorKind)

  /** How long the first n verifications take together. */
  ghost function Elapsed(work: nat -> Work, n: nat): nat {
    if n == 0 then 0 else Elapsed(work, n - 1) + work(n - 1).duration
  }

  /** Some target's observation is too old by this instant. */
  ghost predicate SomeExpired(verifiedAt: seq<nat>, window: nat, now: nat) {
    exists i :: 0 <= i < |verifiedAt| && Expired(verifiedAt[i], window, now)
  }

  /**
   How a refresh that has made n verifications, and stands at the instant after them, must end:
   fresh, failed, or out of time with a target still expired. Time is out when the window is used
   up, or would be before the next verification ends.
   */
  ghost predicate EndsRefresh(verifiedAt: seq<nat>, window: nat, start: nat, work: nat -> Work, n: nat,
                              r: Result<nat, RefreshError>) {
    var now := start + Elapsed(work, n);
    var late := Elapsed(work, n) >= window || Elapsed(work, n + 1) > window;
    if !SomeExpired(verifiedAt, window, now) then r == Ok(now)
    else if late then r == Err(TimedOut)
    else work(n).outcome.Failure? && r == Err(VerificationFailed(work(n).outcome.kind))
  }

  /** Target i had expired by the turn of the k-th verification, and has the instant at which that ended. */
  ghost predicate StampedNth(was: seq<nat>, now: seq<nat>, i: nat, k: nat, window: nat, start: nat, work: nat -> Work) {
    && i < |now| == |was|
    && Elapsed(work, k) < window && Expired(was[i], window, start + Elapsed(work, k))
    && now[i] == start + Elapsed(work, k + 1)
  }

  /** Each verified target had expired by its turn, and is stamped with the instant its verification ended. */
  ghost predicate Stamped(was: seq<nat>, now: seq<nat>, handled: seq<nat>, window: nat, start: nat, work: nat -> Work) {
    && |was| == |now|
    && (forall k :: 0 <= k < |handled| ==> StampedNth(was, now, handled[k], k, window, start, work))
    && (forall i :: 0 <= i < |now| && i !in handled ==> now[i] == was[i])
  }

  /**
   `refresh_expired_bindings`, over the targets' timestamps. Each target is verified at most once,
   only if its observation has expired, and stamped within the window; the verdict is
   that of `EndsRefresh`, so success means that all targets are fresh, and only the deadline or a
   failed verification stops it otherwise.
   */
  method RefreshExpired(verifiedAt: array<nat>, window: nat, start: nat, work: nat -> Work)
    returns (r: Result<nat, RefreshError>, ghost handled: seq<nat>)
    modifies verifiedAt
    ensures EndsRefresh(verifiedAt[..], window, start, work, |handled|, r)
    ensures Elapsed(work, |handled|) <= window
    ensures forall k :: 0 <= k < |handled| ==> work(k).outcome.Success?
    ensures Stamped(old(verifiedAt[..]), verifiedAt[..], handled, window, start, work)
    ensures forall j, k :: 0 <= j < k < |handled| ==> handled[j] != handled[k]
  {
    hide Elapsed, Stamped;
    var deadline := start + window;
    var now: nat, attempt: nat := start, 0;
    handled := [];
    ghost var was := verifiedAt[..];
    NothingStamped(was, window, start, work);
    while true
      invariant attempt == |handled| && now == start + Elapsed(work, |handled|) <= deadline
      invariant Stamped(was, verifiedAt[..], handled, window, start, work)
      invariant forall k :: 0 <= k < |handled| ==> work(k).outcome.Success?
      invariant forall j, k :: 0 <= j < k < |handled| ==> handled[j] != handled[k]
      decreases Pending(verifiedAt[..], start)
    {
      var i := FindExpired(verifiedAt, window, now);
      OneMore(work, attempt);
      if i == verifiedAt.Length {
        return Ok(now), handled;
      }
      assert Expired(verifiedAt[..][i], window, now);
      if now >= deadline || now + work(attempt).duration > deadline {
        return Err(TimedOut), handled;
      }
      now := now + work(attempt).duration;
      if work(attempt).outcome.Failure? {
        return Err(VerificationFailed(work(attempt).outcome.kind)), handled;
      }
      ghost var before := verifiedAt[..];
      StampOne(was, before, handled, window, start, work, i);
      PendingDrops(before, start, i, now);
      verifiedAt[i] := now;
      assert verifiedAt[..] == before[i := now];
      handled := handled + [i];
      attempt := attempt + 1;
    }
  }

  lemma OneMore(work: nat -> Work, n: nat)
    ensures Elapsed(work, n + 1) == Elapsed(work, n) + work(n).duration
  {
  }

  lemma NothingStamped(was: seq<nat>, window: nat, start: nat, work: nat -> Work)
    ensures Stamped(was, was, [], window, start, work) && Elapsed(work, 0) == 0
  {
  }

  /** A target found expired within the window has not been handled, and is stamped next. */
  lemma StampOne(was: seq<nat>, now: seq<nat>, handled: seq<nat>, window: nat, start: nat, work: nat -> Work, i: nat)
    requires Stamped(was, now, handled, window, start, work) && i < |now|
    requires Elapsed(work, |handled|) < window && Expired(now[i], window, start + Elapsed(work, |handled|))
    ensures now[i] < start && i !in handled
    ensures Stamped(was, now[i := start + Elapsed(work, |handled| + 1)], handled + [i], window, start, work)
  {
    hide Elapsed;
    assert now[i] < start;
    assert i !in handled;
    var later := now[i := start + Elapsed(work, |handled| + 1)];
    forall k | 0 <= k < |handled|
      ensures StampedNth(was, later, handled[k], k, window, start, work)
    {
      assert StampedNth(was, now, handled[k], k, window, start, work);
    }
    assert StampedNth(was, later, i, |handled|, window, start, work);
  }

  /** The first expired target, or the number of targets when there is none. */
  method FindExpired(verifiedAt: array<nat>, window: nat, now: nat) returns (i: nat)
    ensures i <= verifiedAt.Length
    ensures i < verifiedAt.Length ==> Expired(verifiedAt[i], window, now)
    ensures forall k :: 0 <= k < i ==> !Expired(verifiedAt[k], window, now)
  {
    i := 0;
    while i < verifiedAt.Length && !Expired(verifiedAt[i], window, now)
      invariant i <= verifiedAt.Length
      invariant forall k :: 0 <= k < i ==> !Expired(verifiedAt[k], window, now)
    {
      i := i + 1;
    }
  }
}
