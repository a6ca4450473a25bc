/** Theorems about whole runs of one message: any workers, crashes and clock readings, in any order. */
module DeliveryRuns {
  import opened Wrappers
  import opened Texts
  import opened RetryPolicy
  import opened DeliveryRules
  import opened DeliverySafety

  datatype Stamped = Stamped(event: Event, now: int)

  /** `states` is the history that the accepted steps in `log` produce. */
  ghost predicate Trace(states: seq<Delivery>, log: seq<Stamped>) {
    && |states| == |log| + 1
    && forall i :: 0 <= i < |log| ==> Apply(states[i], log[i].event, log[i].now) == Ok(states[i + 1])
  }

  lemma TraceStep(states: seq<Delivery>, log: seq<Stamped>, i: nat)
    requires Trace(states, log) && i < |log|
    ensures Apply(states[i], log[i].event, log[i].now) == Ok(states[i + 1])
  {
    hide Apply;
    var _ := states[i + 1];
  }

  lemma {:induction false} RunKeepsInv(states: seq<Delivery>, log: seq<Stamped>, i: nat)
    requires Trace(states, log) && Inv(states[0]) && i <= |log|
    ensures Inv(states[i])
  {
    hide Apply;
    hide Inv;
    if i > 0 {
      RunKeepsInv(states, log, i - 1);
      TraceStep(states, log, i - 1);
      StepKeepsInv(states[i - 1], log[i - 1].event, log[i - 1].now);
    }
  }

  // ---------------------------------------------------------------- terminal states

  lemma TerminalStep(d: Delivery, e: Event, now: int)
    requires Inv(d) && Terminal(d)
    ensures Apply(d, e, now).Err?
  {}

  /** A confirmed, dead-lettered or blocked message accepts no further step, so no run leaves that state. */
  lemma TerminalNeverLeft(states: seq<Delivery>, log: seq<Stamped>, i: nat)
    requires Trace(states, log) && Inv(states[0]) && i <= |log| && Terminal(states[i])
    ensures i == |log|
  {
    hide Apply;
    hide Inv;
    RunKeepsInv(states, log, i);
    if i < |log| {
      TraceStep(states, log, i);
      TerminalStep(states[i], log[i].event, log[i].now);
    }
  }

  // ---------------------------------------------------------------- no blind retry

  /** Attempt `n` lies behind the message: another attempt has begun or has been scheduled. */
  predicate Behind(d: Delivery, n: nat) {
    n < d.message.attemptCount || (n == d.message.attemptCount && d.message.state == RetryScheduled)
  }

  /** The only two ways to settle a dispatched attempt so that another may follow. */
  predicate Settles(e: Event, n: nat) {
    || (e.Fail? && RetryableBeforeAck(e.failure))
    || (e.CompleteCheck? && e.attempt == n && e.observation == NotFound)
  }

  lemma StepSettles(d: Delivery, e: Event, now: int, n: nat)
    requires Inv(d) && Apply(d, e, now).Ok?
    requires Dispatched(d, n) && !Behind(d, n)
    ensures var after := Apply(d, e, now).value;
            && Dispatched(after, n)
            && n == d.message.attemptCount
            && (Behind(after, n) ==> Settles(e, n))
  {
    hide ConfirmationValid;
    hide SettlementValid;
  }

  lemma {:induction false} FindSettlement(states: seq<Delivery>, log: seq<Stamped>, i: nat, j: nat, n: nat)
    requires Trace(states, log) && Inv(states[0]) && i <= j <= |log|
    requires Dispatched(states[i], n) && !Behind(states[i], n) && Behind(states[j], n)
    ensures exists k :: i <= k < j && states[k].message.attemptCount == n && Settles(log[k].event, n)
    decreases j - i
  {
    hide Apply;
    hide Inv;
    RunKeepsInv(states, log, i);
    TraceStep(states, log, i);
    StepSettles(states[i], log[i].event, log[i].now, n);
    if !Behind(states[i + 1], n) {
      FindSettlement(states, log, i + 1, j, n);
    }
  }

  lemma AttemptsOnlyGrow(d: Delivery, e: Event, now: int)
    requires Apply(d, e, now).Ok?
    ensures d.message.attemptCount <= Apply(d, e, now).value.message.attemptCount
    ensures d.attempts.Keys <= Apply(d, e, now).value.attempts.Keys
    ensures Apply(d, e, now).value.message.maxAttempts == d.message.maxAttempts
  {}

  lemma {:induction false} RunOnlyGrows(states: seq<Delivery>, log: seq<Stamped>, i: nat, j: nat)
    requires Trace(states, log) && i <= j <= |log|
    ensures states[i].message.attemptCount <= states[j].message.attemptCount
    ensures states[i].attempts.Keys <= states[j].attempts.Keys
    decreases j - i
  {
    hide Apply;
    if i < j {
      TraceStep(states, log, i);
      AttemptsOnlyGrow(states[i], log[i].event, log[i].now);
      RunOnlyGrows(states, log, i + 1, j);
    }
  }

  lemma StartBegins(d: Delivery, e: Event, now: int)
    requires Inv(d) && Apply(d, e, now).Ok? && e.Start?
    ensures var after := Apply(d, e, now).value;
            && Dispatched(after, d.message.attemptCount) && !Behind(after, d.message.attemptCount)
    ensures d.message.attemptCount !in d.attempts
  {}

  lemma BehindIsSettled(d: Delivery, n: nat)
    requires Inv(d) && Dispatched(d, n) && n < d.message.attemptCount
    ensures SettledInRows(d, n)
  {}

  /** Two durable dispatch starts of one message are two different attempts, and between them the first was
      settled while it was the current attempt: its owner recorded a failure before acknowledgement, or its
      leased reconciliation answered that the source has nothing.  The settlement is also left in the rows. */
  lemma NoBlindRetry(states: seq<Delivery>, log: seq<Stamped>, i: nat, j: nat)
    requires Trace(states, log) && Inv(states[0]) && i < j < |log|
    requires log[i].event.Start? && log[j].event.Start?
    ensures var n := states[i].message.attemptCount;
            && n < states[j].message.attemptCount
            && (exists k :: i < k < j && states[k].message.attemptCount == n && Settles(log[k].event, n))
            && n in states[j].attempts && SettledInRows(states[j], n)
  {
    hide Apply;
    hide Inv;
    var n := states[i].message.attemptCount;
    RunKeepsInv(states, log, i);
    RunKeepsInv(states, log, j);
    RunOnlyGrows(states, log, i, j);
    TraceStep(states, log, i);
    StartBegins(states[i], log[i].event, log[i].now);
    TraceStep(states, log, j);
    StartBegins(states[j], log[j].event, log[j].now);
    StaysDispatched(states, log, i + 1, j, n);
    FindSettlement(states, log, i + 1, j, n);
    BehindIsSettled(states[j], n);
  }

  lemma {:induction false} StaysDispatched(states: seq<Delivery>, log: seq<Stamped>, i: nat, j: nat, n: nat)
    requires Trace(states, log) && i <= j <= |log| && Dispatched(states[i], n)
    requires Inv(states[0])
    ensures Dispatched(states[j], n)
    decreases j - i
  {
    hide Apply;
    hide Inv;
    if i < j {
      RunKeepsInv(states, log, i);
      TraceStep(states, log, i);
      DispatchIsDurable(states[i], log[i].event, log[i].now, n);
      StaysDispatched(states, log, i + 1, j, n);
    }
  }

  lemma DispatchIsDurable(d: Delivery, e: Event, now: int, n: nat)
    requires Apply(d, e, now).Ok? && Dispatched(d, n)
    ensures Dispatched(Apply(d, e, now).value, n)
  {}

  // ---------------------------------------------------------------- confirmation

  /** A step confirms a message only on a matched readback with text; on the leased path the observed
      version is the version the command committed. */
  lemma OnlyAMatchConfirms(d: Delivery, e: Event, now: int)
    requires Inv(d) && d.message.state != SourceConfirmed
    requires Apply(d, e, now).Ok? && Apply(d, e, now).value.message.state == SourceConfirmed
    ensures || (e.CompleteCheck? && e.observation == Matched && HasText(e.readbackRef)
                && e.observedVersion == Some(d.receipt.committedVersion))
            || (e.CloseByOperator? && e.observation == Matched && HasText(e.readbackRef))
    ensures AwaitingSource(d)
    ensures Apply(d, e, now).value.receipt.state == ReceiptConfirmed
  {}

  // ---------------------------------------------------------------- bounded runs

  const STEPS_PER_ATTEMPT := 2 * RECONCILIATION_MAX_ATTEMPTS + 5

  /** How far the current attempt still has to go: its phase, then its remaining checks, then its lease. */
  function PhaseRank(d: Delivery): nat {
    var n := d.message.attemptCount;
    match d.message.state
    case Claimed => if DispatchStarted(d) then STEPS_PER_ATTEMPT - 2 else STEPS_PER_ATTEMPT - 1
    case Pending => 1
    case RetryScheduled => 1
    case SourceConfirmed => 0
    case DeadLettered => 0
    case Blocked => 0
    case _ =>
      if n in d.checkpoints && d.checkpoints[n].result == CheckPending
         && d.checkpoints[n].attemptCount <= RECONCILIATION_MAX_ATTEMPTS
      then 2 * (RECONCILIATION_MAX_ATTEMPTS - d.checkpoints[n].attemptCount)
           + if d.checkpoints[n].lease.Some? then 3 else 2
      else 0
  }

  function Rank(d: Delivery): nat {
    STEPS_PER_ATTEMPT * (if d.message.attemptCount <= d.message.maxAttempts
                         then d.message.maxAttempts - d.message.attemptCount else 0) + PhaseRank(d)
  }

  lemma CheckFalls(d: Delivery, e: Event, now: int)
    requires Inv(d) && Apply(d, e, now).Ok?
    requires e.CloseByOperator? || e.ReleaseCheck? || e.ClaimCheck? || e.CompleteCheck?
    ensures PhaseRank(Apply(d, e, now).value) < PhaseRank(d)
  {
    hide ConfirmationValid;
    hide SettlementValid;
  }

  lemma OwnerFalls(d: Delivery, e: Event, now: int)
    requires Inv(d) && Apply(d, e, now).Ok?
    requires e.Reclaim? || e.Start? || e.Acknowledge? || e.Fail?
    ensures PhaseRank(Apply(d, e, now).value) < PhaseRank(d)
  {}

  lemma ClaimSpendsAttempt(d: Delivery, e: Event, now: int)
    requires CountsValid(d) && Apply(d, e, now).Ok?
    ensures var after := Apply(d, e, now).value.message;
            && after.attemptCount == d.message.attemptCount + (if e.Claim? then 1 else 0)
            && after.attemptCount <= after.maxAttempts == d.message.maxAttempts
  {}

  lemma LeasePhases(d: Delivery, e: Event, now: int)
    requires Inv(d) && Apply(d, e, now).Ok?
    ensures e.Claim? ==> PhaseRank(Apply(d, e, now).value) == STEPS_PER_ATTEMPT - 1
    ensures e.Heartbeat? ==> PhaseRank(Apply(d, e, now).value) == PhaseRank(d)
  {}

  lemma EveryStepFalls(d: Delivery, e: Event, now: int)
    requires Inv(d) && Apply(d, e, now).Ok?
    ensures var after := Apply(d, e, now).value;
            if e.Heartbeat? then Rank(after) == Rank(d) else Rank(after) < Rank(d)
  {
    hide Apply;
    hide CountsValid;
    hide PhaseRank;
    ClaimSpendsAttempt(d, e, now);
    match e {
      case Claim(_) => LeasePhases(d, e, now);
      case Heartbeat(_) => LeasePhases(d, e, now);
      case CloseByOperator(_, _, _, _) => CheckFalls(d, e, now);
      case ReleaseCheck(_) => CheckFalls(d, e, now);
      case ClaimCheck(_, _) => CheckFalls(d, e, now);
      case CompleteCheck(_, _, _, _, _, _) => CheckFalls(d, e, now);
      case _ => OwnerFalls(d, e, now);
    }
  }

  function Moves(log: seq<Stamped>): nat {
    if log == [] then 0
    else Moves(log[..|log| - 1]) + if log[|log| - 1].event.Heartbeat? then 0 else 1
  }

  lemma {:induction false} RunIsBounded(states: seq<Delivery>, log: seq<Stamped>)
    requires Trace(states, log) && Inv(states[0])
    ensures Moves(log) + Rank(states[|log|]) <= Rank(states[0])
    decreases |log|
  {
    hide Apply;
    hide Inv;
    if log != [] {
      var last := |log| - 1;
      hide PhaseRank;
      hide Rank;
      RunIsBounded(states[..|log|], log[..last]);
      RunKeepsInv(states, log, last);
      TraceStep(states, log, last);
      EveryStepFalls(states[last], log[last].event, log[last].now);
    }
  }

  /** Apart from heartbeats a fresh message takes at most a fixed number of steps per delivery attempt. */
  lemma DeliveryEnds(states: seq<Delivery>, log: seq<Stamped>)
    requires Trace(states, log) && Fresh(states[0])
    ensures Moves(log) <= STEPS_PER_ATTEMPT * states[0].message.maxAttempts + 1
  {
    hide Apply;
    hide Inv;
    FreshIsValid(states[0]);
    RunIsBounded(states, log);
  }

  // ---------------------------------------------------------------- quiescence

  /** Some worker can still move the message at some time, kill switches aside. */
  ghost predicate WorkerCanMove(d: Delivery) {
    exists e: Event, now: int :: !e.Heartbeat? && !e.CloseByOperator? && Apply(d, e, now).Ok?
  }

  /** Nobody will check the source again: an operator closed the check without a match, or the last permitted
      check was lost. */
  predicate Stranded(d: Delivery) {
    var n := d.message.attemptCount;
    && AwaitingSource(d) && n in d.checkpoints
    && (d.checkpoints[n].result.Closed?
        || (d.checkpoints[n].lease.None? && d.checkpoints[n].attemptCount >= RECONCILIATION_MAX_ATTEMPTS))
  }

  /** Exactly the states no worker leaves: terminal, or stranded on a check that is closed unmatched or spent. */
  lemma QuiescentExactly(d: Delivery)
    requires Inv(d)
    ensures !WorkerCanMove(d) <==> Terminal(d) || Stranded(d)
    ensures Stranded(d) ==> d.checkpoints[d.message.attemptCount].result != Closed(Matched)
  {
    var n := d.message.attemptCount;
    var worker: Text := [119];
    assert ValidWorkerId(worker);
    match d.message.state {
      case Claimed => assert Apply(d, Reclaim, d.message.lease.value.expiresAt).Ok?;
      case Pending => assert Apply(d, Claim(worker), d.message.notBefore).Ok?;
      case RetryScheduled => assert Apply(d, Claim(worker), d.message.notBefore).Ok?;
      case SourceConfirmed => NoStepWhenDone(d);
      case DeadLettered => NoStepWhenDone(d);
      case Blocked => NoStepWhenDone(d);
      case _ =>
        if Stranded(d) {
          NoStepWhenStranded(d);
        } else if d.checkpoints[n].lease.Some? {
          assert Apply(d, ReleaseCheck(n), d.checkpoints[n].lease.value.expiresAt).Ok?;
        } else {
          assert Apply(d, ClaimCheck(n, worker), d.checkpoints[n].nextCheckAt).Ok?;
        }
    }
  }

  lemma NoStepWhenDone(d: Delivery)
    requires Inv(d) && Terminal(d)
    ensures !WorkerCanMove(d)
  {
    forall e: Event, now: int
      ensures Apply(d, e, now).Err?
    {
      TerminalStep(d, e, now);
    }
  }

  lemma NoStepWhenStranded(d: Delivery)
    requires Inv(d) && Stranded(d)
    ensures !WorkerCanMove(d)
  {}

  predicate ClosedWait(d: Delivery) {
    var n := d.message.attemptCount;
    AwaitingSource(d) && n in d.checkpoints && d.checkpoints[n].result.Closed?
  }

  /** A waiting message is left with a closed check only by an operator who found no match. */
  lemma OnlyOperatorsClose(d: Delivery, e: Event, now: int)
    requires Inv(d) && Apply(d, e, now).Ok? && ClosedWait(Apply(d, e, now).value)
    ensures e.CloseByOperator? && e.observation != Matched
  {
    hide ValidWorkerId, Blank, ConfirmationValid, SettlementValid;
  }

  // ---------------------------------------------------------------- time

  ghost predicate Chronological(log: seq<Stamped>) {
    forall i, j :: 0 <= i < j < |log| ==> log[i].now <= log[j].now
  }

  predicate ClaimTimed(d: Delivery, clock: int) {
    d.message.lease.Some? ==>
      var lease := d.message.lease.value;
      && lease.lockedAt <= clock
      && lease.requestDeadlineAt == lease.lockedAt + WORKER_REQUEST_DEADLINE_MS
      && lease.lockedAt + WORKER_LEASE_MS <= lease.expiresAt
      && lease.expiresAt < lease.lockedAt + WORKER_LEASE_MS + WORKER_REQUEST_DEADLINE_MS
  }

  lemma StepIsTimed(d: Delivery, e: Event, clock: int, now: int)
    requires Apply(d, e, now).Ok? && ClaimTimed(d, clock) && clock <= now
    ensures ClaimTimed(Apply(d, e, now).value, now)
  {}

  lemma {:induction false} RunIsTimed(states: seq<Delivery>, log: seq<Stamped>, j: nat)
    requires Trace(states, log) && Chronological(log) && Fresh(states[0]) && j <= |log|
    ensures j > 0 ==> ClaimTimed(states[j], log[j - 1].now)
    ensures j < |log| ==> ClaimTimed(states[j], log[j].now)
  {
    hide Apply;
    if j > 0 {
      RunIsTimed(states, log, j - 1);
      TraceStep(states, log, j - 1);
      StepIsTimed(states[j - 1], log[j - 1].event, log[j - 1].now, log[j - 1].now);
    }
  }

  lemma ClaimOpensLease(d: Delivery, e: Event, now: int)
    requires Apply(d, e, now).Ok? && e.Claim?
    ensures var lease := Apply(d, e, now).value.message.lease;
            lease.Some? && lease.value.owner == e.worker && lease.value.lockedAt == now
  {}

  lemma OnlyClaimsOpenLeases(d: Delivery, e: Event, now: int)
    requires Inv(d) && Apply(d, e, now).Ok? && !e.Claim? && Apply(d, e, now).value.message.state == Claimed
    ensures d.message.state == Claimed && d.message.lease.Some?
    ensures var lease := Apply(d, e, now).value.message.lease;
            && lease.Some? && lease.value.owner == d.message.lease.value.owner
            && lease.value.lockedAt == d.message.lease.value.lockedAt
  {
    hide ValidWorkerId, Blank, ConfirmationValid, SettlementValid;
    assert e.Heartbeat? || e.Start?;
  }

  lemma OwnerEventsNeedLease(d: Delivery, e: Event, now: int)
    requires Inv(d) && Apply(d, e, now).Ok? && OwnerEvent(e)
    ensures d.message.state == Claimed && OwnsLease(d, OwnerOf(e), now)
  {}

  /** The lease a claimed message holds was opened by the latest claim, whose time it carries. */
  lemma {:induction false} LeaseOpenedByClaim(states: seq<Delivery>, log: seq<Stamped>, j: nat) returns (i: nat)
    requires Trace(states, log) && Fresh(states[0]) && j <= |log|
    requires states[j].message.state == Claimed
    ensures states[j].message.lease.Some?
    ensures i < j && log[i].event == Claim(states[j].message.lease.value.owner)
    ensures log[i].now == states[j].message.lease.value.lockedAt
    ensures forall k :: i < k < j ==> !log[k].event.Claim?
  {
    hide Apply;
    hide Inv;
    FreshIsValid(states[0]);
    RunKeepsInv(states, log, j - 1);
    TraceStep(states, log, j - 1);
    if log[j - 1].event.Claim? {
      ClaimOpensLease(states[j - 1], log[j - 1].event, log[j - 1].now);
      i := j - 1;
    } else {
      OnlyClaimsOpenLeases(states[j - 1], log[j - 1].event, log[j - 1].now);
      i := LeaseOpenedByClaim(states, log, j - 1);
    }
  }

  predicate OwnerEvent(e: Event) { e.Heartbeat? || e.Start? || e.Acknowledge? || e.Fail? }

  function OwnerOf(e: Event): Text
    requires OwnerEvent(e)
  {
    e.worker
  }

  /** Whatever the heartbeats: a dispatch start, acknowledgement, failure or heartbeat is accepted only from
      the worker of the latest claim and within 45 seconds of it, and the lease it acts under ends less than
      105 seconds after that claim. */
  lemma OwnerActsInTime(states: seq<Delivery>, log: seq<Stamped>, j: nat)
    requires Trace(states, log) && Chronological(log) && Fresh(states[0]) && j < |log|
    requires OwnerEvent(log[j].event)
    ensures exists i :: && 0 <= i < j && log[i].event == Claim(OwnerOf(log[j].event))
                        && (forall k :: i < k < j ==> !log[k].event.Claim?)
                        && log[i].now <= log[j].now < log[i].now + 45_000
                        && states[j].message.lease.Some?
                        && states[j].message.lease.value.expiresAt < log[i].now + 105_000
  {
    hide Apply;
    hide Inv;
    FreshIsValid(states[0]);
    RunKeepsInv(states, log, j);
    TraceStep(states, log, j);
    OwnerEventsNeedLease(states[j], log[j].event, log[j].now);
    var i := LeaseOpenedByClaim(states, log, j);
    RunIsTimed(states, log, j);
  }
}
