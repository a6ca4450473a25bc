/** What each step of a message comes to, stated by the columns it reads and writes: when it is accepted, what it
    changes and what it leaves alone.  These are the store's promises, independent of how the steps are put together. */
module DeliveryOutcomes {
  import opened Wrappers
  import opened Texts
  import opened RetryPolicy
  import opened DeliveryRules
  import opened DeliverySafety
  import opened DeliveryRuns
  import opened DueSelection
  import opened DeliveryTables
  import opened ProviderWorkers

  // ---------------------------------------------------------------- answers to a leased check

  /** Apart from message, receipt, attempts and dead letter a completed check changes its own row: the answer is
      written, the lease ends, and the number of checks stays. */
  ghost predicate AnswerWritten(d: Delivery, e: Event, now: int, after: Delivery)
    requires e.CompleteCheck?
  {
    var n := e.attempt;
    && n in d.checkpoints && n in after.checkpoints
    && var before, done := d.checkpoints[n], after.checkpoints[n];
       && after.checkpoints == d.checkpoints[n := done]
       && done.lease.None? && done.checkedAt == now && done.observedVersion == e.observedVersion
       && done.readbackRef == e.readbackRef && done.attemptCount == before.attemptCount
       && done.expectedVersion == before.expectedVersion
       && (done.result != CheckPending ==>
             done.result == Closed(e.observation) && done.nextCheckAt == before.nextCheckAt)
  }

  /** A leased answer is accepted exactly from the lease's owner before the lease ends, on a pending check of the
      current attempt; a match needs a reference and the committed version besides. */
  lemma AnswerAcceptedExactly(d: Delivery, e: Event, now: int)
    requires Inv(d) && e.CompleteCheck?
    ensures Apply(d, e, now).Ok? <==>
              && 1 <= |e.worker| <= 190 && (forall i :: 0 <= i < |e.worker| ==> IsWorkerCharacter(e.worker[i]))
              && e.attempt in d.checkpoints && d.checkpoints[e.attempt].lease.Some?
              && d.checkpoints[e.attempt].lease.value.owner == e.worker
              && now < d.checkpoints[e.attempt].lease.value.expiresAt
              && (e.observation == Matched ==>
                    && e.readbackRef.Some? && !Blank(e.readbackRef.value)
                    && e.observedVersion == Some(d.receipt.committedVersion))
    ensures Apply(d, e, now).Ok? ==>
              && e.attempt == d.message.attemptCount && AwaitingSource(d)
              && 1 <= d.checkpoints[e.attempt].attemptCount <= 5
              && AnswerWritten(d, e, now, Apply(d, e, now).value)
  {
    hide Blank, Power;
  }

  /** The waits before the second to the fifth check. */
  const RECHECK_DELAYS: seq<nat> := [1_000, 2_000, 4_000, 8_000]

  lemma RecheckDelay(k: nat)
    requires 1 <= k < 5
    ensures Min(900_000, 1_000 * Power(2, Max(0, k - 1))) == RECHECK_DELAYS[k - 1]
  {
    assert Power(2, 0) == 1 && Power(2, 1) == 2 && Power(2, 2) == 4 && Power(2, 3) == 8;
  }

  /** An inconclusive answer to one of the first four checks moves nothing but the check, which stays open for the next
      one after a doubling wait; an inconclusive fifth answer blocks the message. */
  lemma InconclusiveExactly(d: Delivery, e: Event, now: int)
    requires Inv(d) && e.CompleteCheck? && (e.observation == Ambiguous || e.observation == SourceUnavailable)
    requires Apply(d, e, now).Ok?
    ensures var after := Apply(d, e, now).value;
            && e.attempt in d.checkpoints && e.attempt in after.checkpoints
            && after.receipt == d.receipt && after.attempts == d.attempts && after.deadLetter == d.deadLetter
            && var k, done := d.checkpoints[e.attempt].attemptCount, after.checkpoints[e.attempt];
               && 1 <= k <= 5
               && (k < 5 ==> && after.message == d.message && done.result == CheckPending && done.lease.None?
                             && done.nextCheckAt == e.appNow + RECHECK_DELAYS[k - 1])
               && (k == 5 ==> && after.message == d.message.(state := Blocked, failureClass := Some(PolicyBlocked),
                                                             errorCode := Some(ReconciliationBudgetExhausted))
                              && done.result == Closed(e.observation))
  {
    hide Blank, Power, ConfirmationValid, SettlementValid;
    var k := d.checkpoints[e.attempt].attemptCount;
    if 1 <= k < 5 {
      RecheckDelay(k);
    }
  }

  /** A source at another version blocks the message at once, whatever the number of checks. */
  lemma MismatchBlocks(d: Delivery, e: Event, now: int)
    requires Inv(d) && e.CompleteCheck? && e.observation == VersionMismatch && Apply(d, e, now).Ok?
    ensures var after := Apply(d, e, now).value;
            && after.receipt == d.receipt && after.attempts == d.attempts && after.deadLetter == d.deadLetter
            && after.message == d.message.(state := Blocked, failureClass := Some(PolicyBlocked),
                                           errorCode := Some(SourceVersionMismatch))
            && e.attempt in after.checkpoints && after.checkpoints[e.attempt].result == Closed(VersionMismatch)
  {
    hide Blank, Power, ConfirmationValid, SettlementValid;
  }

  /** A source that has nothing leads to another delivery attempt exactly when one is left, at once; otherwise the
      message is dead-lettered for an operator. */
  lemma NotFoundExactly(d: Delivery, e: Event, now: int)
    requires Inv(d) && e.CompleteCheck? && e.observation == NotFound && Apply(d, e, now).Ok?
    ensures var after := Apply(d, e, now).value;
            && (after.message.state == RetryScheduled <==> d.message.attemptCount < d.message.maxAttempts)
            && (after.message.state == DeadLettered <==> d.message.attemptCount == d.message.maxAttempts)
            && after.receipt == d.receipt && after.attempts == d.attempts
            && after.message.notBefore == now && after.message.attemptCount == d.message.attemptCount
            && after.deadLetter == (if after.message.state == DeadLettered
                                    then Some(Letter(Permanent, ReconciliationRetryExhausted, false)) else None)
            && e.attempt in after.checkpoints && after.checkpoints[e.attempt].result == Closed(NotFound)
  {
    hide Blank, Power, ConfirmationValid, SettlementValid, WithDeadLetter;
    AnswerAcceptedExactly(d, e, now);
    hide Apply;
    NotFoundStep(d, e, now);
  }

  lemma NotFoundStep(d: Delivery, e: Event, now: int)
    requires e.CompleteCheck? && e.observation == NotFound && Apply(d, e, now).Ok?
    ensures var after := Apply(d, e, now).value;
            && after.message.state == (if d.message.attemptCount >= d.message.maxAttempts then DeadLettered
                                       else RetryScheduled)
            && after.receipt == d.receipt && after.attempts == d.attempts
            && after.message.notBefore == now && after.message.attemptCount == d.message.attemptCount
            && after.deadLetter == (if after.message.state == DeadLettered && d.deadLetter.None?
                                    then Some(Letter(Permanent, ReconciliationRetryExhausted, false))
                                    else d.deadLetter)
            && e.attempt in after.checkpoints && after.checkpoints[e.attempt].result == Closed(NotFound)
  {
    hide Blank, Power, ValidWorkerId;
  }

  /** A match confirms message and receipt with one reference at one time, and notes it on the current attempt. */
  lemma MatchConfirms(d: Delivery, e: Event, now: int)
    requires Inv(d) && e.CompleteCheck? && e.observation == Matched && Apply(d, e, now).Ok?
    ensures var after := Apply(d, e, now).value;
            var n := d.message.attemptCount;
            && after.message == d.message.(state := SourceConfirmed, confirmedAt := Some(now),
                                           readbackRef := e.readbackRef)
            && after.receipt == d.receipt.(state := ReceiptConfirmed, confirmedAt := Some(now),
                                           readbackRef := e.readbackRef)
            && n in d.attempts && after.attempts == d.attempts[n := d.attempts[n].(readbackRef := e.readbackRef)]
            && after.deadLetter == d.deadLetter
            && n in after.checkpoints && after.checkpoints[n].result == Closed(Matched)
  {
    hide Blank, Power, ConfirmationValid, SettlementValid;
  }

  // ---------------------------------------------------------------- blocked messages, over runs

  /** How often a check of attempt `n` was claimed. */
  function TimesChecked(log: seq<Stamped>, n: nat): nat {
    if log == [] then 0
    else
      var e := log[|log| - 1].event;
      TimesChecked(log[..|log| - 1], n) + if e.ClaimCheck? && e.attempt == n then 1 else 0
  }

  lemma StepCounts(d: Delivery, e: Event, now: int, n: nat)
    requires Inv(d) && Apply(d, e, now).Ok?
    ensures var after := Apply(d, e, now).value;
            var before := if n in d.checkpoints then d.checkpoints[n].attemptCount else 0;
            (if n in after.checkpoints then after.checkpoints[n].attemptCount else 0)
            == before + if e.ClaimCheck? && e.attempt == n then 1 else 0
  {
    hide ValidWorkerId, Blank, Power, ConfirmationValid, SettlementValid, DecideRetry;
  }

  /** A checkpoint counts the claims of its check. */
  lemma {:induction false} ChecksAreCounted(states: seq<Delivery>, log: seq<Stamped>, j: nat, n: nat)
    requires Trace(states, log) && Fresh(states[0]) && j <= |log|
    ensures TimesChecked(log[..j], n)
            == if n in states[j].checkpoints then states[j].checkpoints[n].attemptCount else 0
  {
    hide Apply, Inv;
    if j > 0 {
      ChecksAreCounted(states, log, j - 1, n);
      FreshIsValid(states[0]);
      RunKeepsInv(states, log, j - 1);
      TraceStep(states, log, j - 1);
      StepCounts(states[j - 1], log[j - 1].event, log[j - 1].now, n);
      assert log[..j][..j - 1] == log[..j - 1];
    }
  }

  /** What a step has to be to block a message. */
  ghost predicate Blocks(d: Delivery, e: Event) {
    && e.CompleteCheck? && e.attempt == d.message.attemptCount && e.attempt in d.checkpoints
    && (e.observation == VersionMismatch
        || ((e.observation == Ambiguous || e.observation == SourceUnavailable)
            && d.checkpoints[e.attempt].attemptCount == 5))
  }

  lemma BlockingStep(d: Delivery, e: Event, now: int)
    requires Inv(d) && Apply(d, e, now).Ok?
    ensures Apply(d, e, now).value.message.state == Blocked <==> Blocks(d, e)
  {
    if e.CompleteCheck? {
      hide Apply;
      AnswerAcceptedExactly(d, e, now);
      match e.observation {
        case Matched => MatchConfirms(d, e, now);
        case NotFound => NotFoundExactly(d, e, now);
        case VersionMismatch => MismatchBlocks(d, e, now);
        case _ => InconclusiveExactly(d, e, now);
      }
    } else {
      hide ValidWorkerId, Blank, Power, ConfirmationValid, SettlementValid, ChecksValid;
      if d.message.state == Blocked {
        TerminalStep(d, e, now);
      }
    }
  }

  /** Over every run: a message is blocked exactly when its last step was a leased answer that the source is at another
      version, or an inconclusive one to a check that had been claimed five times.  No outage shorter than that ends a
      delivery. */
  lemma BlockedExactly(states: seq<Delivery>, log: seq<Stamped>, j: nat)
    requires Trace(states, log) && Fresh(states[0]) && j <= |log|
    ensures states[j].message.state == Blocked <==>
              && j == |log| > 0
              && var e, n := log[j - 1].event, states[j - 1].message.attemptCount;
                 && e.CompleteCheck? && e.attempt == n
                 && (e.observation == VersionMismatch
                     || ((e.observation == Ambiguous || e.observation == SourceUnavailable)
                         && TimesChecked(log, n) == 5))
  {
    hide Apply, Inv;
    FreshIsValid(states[0]);
    RunKeepsInv(states, log, j);
    if states[j].message.state == Blocked {
      TerminalNeverLeft(states, log, j);
    }
    if j == |log| > 0 {
      var d, e, now := states[j - 1], log[j - 1].event, log[j - 1].now;
      RunKeepsInv(states, log, j - 1);
      TraceStep(states, log, j - 1);
      BlockingStep(d, e, now);
      ChecksAreCounted(states, log, j - 1, d.message.attemptCount);
      assert log[..j - 1] == log[..|log| - 1];
      if e.CompleteCheck? {
        AnswerAcceptedExactly(d, e, now);
      }
    }
  }

  // ---------------------------------------------------------------- delivery steps

  /** The lease columns that every call of an owner depends on. */
  ghost predicate LeasedTo(d: Delivery, worker: Text, now: int) {
    && 1 <= |worker| <= 190 && (forall i :: 0 <= i < |worker| ==> IsWorkerCharacter(worker[i]))
    && d.message.lease.Some? && d.message.lease.value.owner == worker
    && now < d.message.lease.value.expiresAt && now < d.message.lease.value.requestDeadlineAt
  }

  /** A fresh checkpoint of the current attempt, and nothing else among the checkpoints. */
  ghost predicate CheckOpened(d: Delivery, now: int, after: Delivery) {
    var n := d.message.attemptCount;
    after.checkpoints ==
      d.checkpoints[n := Checkpoint(d.receipt.committedVersion, CheckPending, None, None, 0, None, now, now)]
  }

  /** A lost worker: after a durable start the source is asked before anything else; without one the message is tried
      again exactly while attempts are left. */
  lemma ReclaimExactly(d: Delivery, now: int)
    requires Inv(d)
    ensures Apply(d, Reclaim, now).Ok? <==> d.message.lease.Some? && d.message.lease.value.expiresAt <= now
    ensures Apply(d, Reclaim, now).Ok? ==>
              var n, after := d.message.attemptCount, Apply(d, Reclaim, now).value;
              && after.receipt == d.receipt && after.message.lease.None?
              && after.message.attemptCount == n && after.message.maxAttempts == d.message.maxAttempts
              && if n in d.attempts then
                   && after.message == d.message.(
                        state := ReconciliationRequired, lease := None, failureClass := Some(AmbiguousAfterAck),
                        errorCode := Some(WorkerLostAfterDispatch))
                   && after.attempts == d.attempts[n := d.attempts[n].(
                        result := AttemptReconcile, failureClass := Some(AmbiguousAfterAck))]
                   && CheckOpened(d, now, after) && after.deadLetter.None?
                 else
                   && after.message == d.message.(
                        state := if n < d.message.maxAttempts then RetryScheduled else DeadLettered, lease := None,
                        notBefore := now, failureClass := Some(TransientBeforeAck), errorCode := Some(LeaseExpired))
                   && after.attempts == d.attempts && after.checkpoints == d.checkpoints
                   && after.deadLetter == (if n < d.message.maxAttempts then None
                                           else Some(Letter(TransientBeforeAck, LeaseExpired, true)))
  {
    hide ConfirmationValid, SettlementValid;
  }

  /** A claim takes a waiting message whose time has come and whose attempts are not spent, for 60 seconds of lease and
      45 seconds of requests. */
  lemma ClaimExactly(d: Delivery, worker: Text, now: int)
    requires Inv(d)
    ensures Apply(d, Claim(worker), now).Ok? <==>
              && 1 <= |worker| <= 190 && (forall i :: 0 <= i < |worker| ==> IsWorkerCharacter(worker[i]))
              && (d.message.state == Pending || d.message.state == RetryScheduled) && d.message.notBefore <= now
    ensures Apply(d, Claim(worker), now).Ok? ==>
              && d.message.attemptCount < d.message.maxAttempts
              && Apply(d, Claim(worker), now).value == d.(message := d.message.(
                   state := Claimed, attemptCount := d.message.attemptCount + 1,
                   lease := Some(Lease(worker, now, now + 60_000, now + 45_000))))
  {
    hide ConfirmationValid, SettlementValid;
  }

  /** Heartbeats and dispatch starts: only the owner's, in time; a heartbeat moves the end of the lease and nothing
      else, a start writes the one row of its attempt and nothing else. */
  lemma OwnerStepsExactly(d: Delivery, worker: Text, requestRef: Text, now: int)
    requires Inv(d)
    ensures Apply(d, Heartbeat(worker), now).Ok? <==> LeasedTo(d, worker, now)
    ensures LeasedTo(d, worker, now) ==>
              Apply(d, Heartbeat(worker), now).value ==
              d.(message := d.message.(lease := Some(d.message.lease.value.(expiresAt := now + 60_000))))
    ensures Apply(d, Start(worker, requestRef), now).Ok? <==>
              LeasedTo(d, worker, now) && d.message.attemptCount !in d.attempts
    ensures Apply(d, Start(worker, requestRef), now).Ok? ==>
              Apply(d, Start(worker, requestRef), now).value ==
              d.(attempts := d.attempts[d.message.attemptCount :=
                   Attempt(AttemptStarted, None, Some(requestRef), None, None)])
  {
    hide ConfirmationValid, SettlementValid;
  }

  /** An acknowledgement counts only with a reference and after a durable start, and opens a check at once. */
  lemma AcknowledgeExactly(d: Delivery, worker: Text, ref: Text, now: int)
    requires Inv(d)
    ensures var e, n := Acknowledge(worker, ref), d.message.attemptCount;
            && (Apply(d, e, now).Ok? <==> LeasedTo(d, worker, now) && !Blank(ref) && n in d.attempts)
            && (Apply(d, e, now).Ok? ==>
                  var after := Apply(d, e, now).value;
                  && after.message == d.message.(state := ProviderAcknowledged, lease := None,
                                                 acknowledgedAt := Some(now), acknowledgementRef := Some(ref))
                  && after.attempts == d.attempts[n := d.attempts[n].(
                       result := Succeeded, acknowledgementRef := Some(ref))]
                  && CheckOpened(d, now, after) && after.receipt == d.receipt && after.deadLetter == d.deadLetter)
  {
    hide Blank, ConfirmationValid, SettlementValid;
  }

  /** A failure its owner records: retried exactly when it came before any acknowledgement and an attempt is left, and
      then after at least half the backoff of 1, 2, 4, ... seconds, at least what a rate limit asked for, and at most 15
      minutes; checked at the source exactly when it is ambiguous; dead-lettered in every other case. */
  lemma FailExactly(d: Delivery, e: Event, now: int)
    requires Inv(d) && e.Fail?
    ensures Apply(d, e, now).Ok? <==> LeasedTo(d, e.worker, now)
    ensures Apply(d, e, now).Ok? ==>
              var after, n := Apply(d, e, now).value, d.message.attemptCount;
              && n >= 1
              && after.message == d.message.(
                   state := after.message.state, lease := None, failureClass := Some(e.failure),
                   errorCode := Some(Reported(e.errorCode)), notBefore := after.message.notBefore)
              && (after.message.state == RetryScheduled <==>
                    (e.failure == TransientBeforeAck || e.failure == RateLimited) && n < d.message.maxAttempts)
              && (after.message.state == ReconciliationRequired <==> e.failure == AmbiguousAfterAck)
              && (after.message.state == RetryScheduled
                  || after.message.state == ReconciliationRequired || after.message.state == DeadLettered)
              && after.deadLetter == (if after.message.state == DeadLettered
                                      then Some(Letter(e.failure, Reported(e.errorCode), true)) else None)
              && after.receipt == d.receipt
              && (if after.message.state == ReconciliationRequired then CheckOpened(d, now, after)
                  else after.checkpoints == d.checkpoints)
              && n in after.attempts && after.attempts == d.attempts[n := after.attempts[n]]
              && after.attempts[n].failureClass == Some(e.failure)
              && (n in d.attempts ==> after.attempts[n].requestRef == d.attempts[n].requestRef)
              && after.attempts[n].result == (if after.message.state == RetryScheduled then AttemptRetry
                                              else if after.message.state == ReconciliationRequired
                                              then AttemptReconcile else AttemptFailed)
              && (after.message.state == RetryScheduled ==>
                    var wait := after.message.notBefore - e.appNow;
                    && Min(900_000, 1_000 * Power(2, n - 1)) <= 2 * wait && wait <= 900_000
                    && (e.failure == RateLimited && e.retryAfterMs.Some? ==>
                          Min(900_000, e.retryAfterMs.value) <= wait))
              && (after.message.state != RetryScheduled ==> after.message.notBefore == d.message.notBefore)
  {
    hide ConfirmationValid, SettlementValid, Power, Jittered;
    if LeasedTo(d, e.worker, now) {
      RetryDelayBounds(d.message.attemptCount, e.failure, e.appNow, DeliveryPolicy(d), e.retryAfterMs, e.digestByte);
    }
  }

  /** An operator closes any pending check that no worker holds, a match only with a reference; that moves the message
      exactly for a match. */
  lemma OperatorExactly(d: Delivery, e: Event, now: int)
    requires Inv(d) && e.CloseByOperator?
    ensures Apply(d, e, now).Ok? <==>
              && (e.observation == Matched ==> e.readbackRef.Some? && !Blank(e.readbackRef.value))
              && e.attempt in d.checkpoints && d.checkpoints[e.attempt].result == CheckPending
              && d.checkpoints[e.attempt].lease.None?
    ensures Apply(d, e, now).Ok? ==>
              var after := Apply(d, e, now).value;
              && after.checkpoints == d.checkpoints[e.attempt := d.checkpoints[e.attempt].(
                   result := Closed(e.observation), observedVersion := e.observedVersion,
                   readbackRef := e.readbackRef, checkedAt := now)]
              && after.attempts == d.attempts && after.deadLetter == d.deadLetter
              && (e.observation != Matched ==> after.message == d.message && after.receipt == d.receipt)
              && (e.observation == Matched ==>
                    && after.message == d.message.(state := SourceConfirmed, confirmedAt := Some(now),
                                                   readbackRef := e.readbackRef)
                    && after.receipt == d.receipt.(state := ReceiptConfirmed, confirmedAt := Some(now),
                                                   readbackRef := e.readbackRef))
  {
    hide Blank, ConfirmationValid, SettlementValid;
  }

  /** A check is claimed when it is pending, unleased and due and was claimed fewer than five times; a lease that ran
      out is released and the check due again at once. */
  lemma CheckLeasesExactly(d: Delivery, n: nat, worker: Text, now: int)
    requires Inv(d)
    ensures var e := ClaimCheck(n, worker);
            && (Apply(d, e, now).Ok? <==>
                  && 1 <= |worker| <= 190 && (forall i :: 0 <= i < |worker| ==> IsWorkerCharacter(worker[i]))
                  && n in d.checkpoints && d.checkpoints[n].result == CheckPending && d.checkpoints[n].lease.None?
                  && d.checkpoints[n].nextCheckAt <= now && d.checkpoints[n].attemptCount < 5)
            && (Apply(d, e, now).Ok? ==> Apply(d, e, now).value == d.(checkpoints := d.checkpoints[n :=
                  d.checkpoints[n].(lease := Some(CheckLease(worker, now, now + 60_000)),
                                    attemptCount := d.checkpoints[n].attemptCount + 1)]))
    ensures var e := ReleaseCheck(n);
            && (Apply(d, e, now).Ok? <==>
                  && n in d.checkpoints && d.checkpoints[n].lease.Some?
                  && d.checkpoints[n].lease.value.expiresAt <= now)
            && (Apply(d, e, now).Ok? ==> Apply(d, e, now).value == d.(checkpoints := d.checkpoints[n :=
                  d.checkpoints[n].(lease := None, nextCheckAt := now)]))
  {
    hide ConfirmationValid, SettlementValid;
  }

  // ---------------------------------------------------------------- kill switches

  /** A message can be claimed exactly when it waits, is due, has attempts left, is not locked elsewhere, and neither a
      global switch nor one for its destination is active. */
  lemma CandidateExactly(db: Db, now: int, locked: set<Text>, switches: set<Switch>, m: Text)
    ensures m in DueDeliveries(db, now, locked, switches) <==>
              && m in db && m !in locked
              && (db[m].message.state == Pending || db[m].message.state == RetryScheduled)
              && db[m].message.notBefore <= now && db[m].message.attemptCount < db[m].message.maxAttempts
              && GlobalSwitch !in switches && DestinationSwitch(db[m].message.destination) !in switches
  {}

  /** A check can be claimed exactly when it is pending, unleased, due, not locked elsewhere, and was claimed fewer than
      five times. */
  lemma CheckCandidateExactly(db: Db, now: int, locked: set<(Text, nat)>, m: Text, n: nat)
    ensures (m, n) in DueChecks(db, now, locked) <==>
              && m in db && n in db[m].checkpoints && (m, n) !in locked
              && db[m].checkpoints[n].result == CheckPending && db[m].checkpoints[n].lease.None?
              && db[m].checkpoints[n].nextCheckAt <= now && db[m].checkpoints[n].attemptCount < 5
  {}

  /** A page of messages is in the order of the times from which they are due, and of their age at one such time; what
      was left out would not have come earlier. */
  lemma PageInDueOrder(
    db: Db, now: int, locked: set<Text>, switches: set<Switch>, limit: nat, claimed: seq<Text>, i: nat, m: Text)
    requires var due := DueDeliveries(db, now, locked, switches);
             EarliestFirst(due, limit, claimed) && i < |claimed| && m in due
             && forall j :: 0 <= j < i ==> claimed[j] != m
    ensures claimed[i] in db && m in db
    ensures var a, b := db[claimed[i]].message, db[m].message;
            a.notBefore < b.notBefore || (a.notBefore == b.notBefore && a.createdAt <= b.createdAt)
  {
    hide Due, SwitchedOff;
  }

  /** And so are the pages of checks, by the times from which they are due and of their last checking. */
  lemma ChecksInDueOrder(
    db: Db, now: int, locked: set<(Text, nat)>, limit: nat, claimed: seq<(Text, nat)>, i: nat, c: (Text, nat))
    requires var due := DueChecks(db, now, locked);
             EarliestFirst(due, limit, claimed) && i < |claimed| && c in due
             && forall j :: 0 <= j < i ==> claimed[j] != c
    ensures claimed[i].0 in db && claimed[i].1 in db[claimed[i].0].checkpoints
    ensures c.0 in db && c.1 in db[c.0].checkpoints
    ensures var a, b := db[claimed[i].0].checkpoints[claimed[i].1], db[c.0].checkpoints[c.1];
            a.nextCheckAt < b.nextCheckAt || (a.nextCheckAt == b.nextCheckAt && a.checkedAt <= b.checkedAt)
  {
    hide CheckDue;
  }

  lemma SweepKeepsDestination(d: Delivery, now: int, skip: bool)
    ensures Swept(d, now, skip).message.destination == d.message.destination
  {}

  /** In every interleaving an active kill switch holds: no batch claims anything under a global switch, and none claims
      a message whose destination is switched off. */
  lemma SwitchesStopClaims(s: System, a: Action, after: System, id: Text)
    requires Step(s, a, after) && a.ClaimBatch?
    requires GlobalSwitch in s.switches
             || (id in s.db && DestinationSwitch(s.db[id].message.destination) in s.switches)
    ensures id !in a.claimed
    ensures GlobalSwitch in s.switches ==> a.claimed == []
  {
    hide Swept;
    var swept := SweptDb(s.db, s.clock, a.locked);
    forall m
      ensures m in DueDeliveries(swept, s.clock, a.locked, s.switches) ==>
                && m in swept && GlobalSwitch !in s.switches
                && DestinationSwitch(swept[m].message.destination) !in s.switches
    {
      CandidateExactly(swept, s.clock, a.locked, s.switches, m);
    }
    if id in s.db {
      SweepKeepsDestination(s.db[id], s.clock, id in a.locked);
    }
    hide DueDeliveries;
    assert forall i :: 0 <= i < |a.claimed| ==>
      a.claimed[i] in DueDeliveries(swept, s.clock, a.locked, s.switches);
  }

  // ---------------------------------------------------------------- batches

  /** A batch asks for ten rows unless told otherwise, and for at least one and at most fifty. */
  lemma LimitExactly(limit: Option<int>)
    ensures 1 <= BoundedLimit(limit) <= 50
    ensures BoundedLimit(limit) == if limit.None? then 10 else Min(50, Max(1, limit.value))
  {}

  function OrSame(r: Result<Delivery, StoreError>, d: Delivery): Delivery { if r.Ok? then r.value else d }

  /** A delivery claim reclaims every expired lease that no other transaction has locked, and then claims exactly the
      chosen messages; nothing else happens to any message. */
  lemma ClaimBatchExactly(
    db: Db, worker: Text, now: int, locked: set<Text>, switches: set<Switch>, claimed: seq<Text>, m: Text)
    requires AllValid(db) && ValidWorkerId(worker) && m in db
    requires forall c <- claimed :: c in DueDeliveries(SweptDb(db, now, locked), now, locked, switches)
    ensures var after := ClaimedDb(SweptDb(db, now, locked), worker, now, claimed);
            && after.Keys == db.Keys
            && var swept := if m in locked then db[m] else OrSame(Apply(db[m], Reclaim, now), db[m]);
               if m in claimed then Apply(swept, Claim(worker), now) == Ok(after[m]) else after[m] == swept
  {
    hide Inv, Reclaimed, ValidWorkerId;
  }

  /** A reconciliation claim releases every expired check lease, and then claims exactly the chosen checks; nothing else
      happens to any message. */
  lemma ClaimChecksExactly(
    db: Db, worker: Text, now: int, locked: set<(Text, nat)>, claimed: seq<(Text, nat)>, m: Text)
    requires AllValid(db) && ValidWorkerId(worker) && m in db
    requires forall c <- claimed :: c in DueChecks(CheckSweptDb(db, now), now, locked)
    ensures var after := ChecksTakenDb(CheckSweptDb(db, now), worker, now, claimed);
            && after.Keys == db.Keys
            && var n := db[m].message.attemptCount;
               var swept := OrSame(Apply(db[m], ReleaseCheck(n), now), db[m]);
               if exists k :: (m, k) in claimed then Apply(swept, ClaimCheck(n, worker), now) == Ok(after[m])
               else after[m] == swept
  {
    hide ValidWorkerId;
    var d, n := db[m], db[m].message.attemptCount;
    var swept := CheckSwept(d, now);
    assert Inv(d);
    ReleaseExactly(d, now);
    forall k | (m, k) in claimed
      ensures CheckDue(swept, k, now)
    {
      assert (m, k) in DueChecks(CheckSweptDb(db, now), now, locked);
    }
    CheckSweepIsRelease(d, now);
    StepsKeepInv(d, swept, ReleaseCheck(n), now);
    hide CheckSwept, Apply;
    TakeExactly(swept, m, worker, now, claimed);
  }

  lemma ReleaseExactly(d: Delivery, now: int)
    requires Inv(d)
    ensures CheckSwept(d, now) == OrSame(Apply(d, ReleaseCheck(d.message.attemptCount), now), d)
  {
    hide CountsValid, ClaimValid, ConfirmationValid, SettlementValid;
    var n := d.message.attemptCount;
    assert forall k :: k in d.checkpoints && CheckLeaseExpired(d, k, now) ==> k == n;
    if CheckLeaseExpired(d, n, now) {
      assert CheckSwept(d, now).checkpoints == ReleasedCheck(d, n, now).checkpoints;
    } else {
      assert CheckSwept(d, now).checkpoints == d.checkpoints;
    }
  }

  lemma TakeExactly(d: Delivery, m: Text, worker: Text, now: int, claimed: seq<(Text, nat)>)
    requires Inv(d) && ValidWorkerId(worker) && forall k :: (m, k) in claimed ==> CheckDue(d, k, now)
    ensures var n, after := d.message.attemptCount, ChecksTaken(d, m, worker, now, claimed);
            after.message == d.message
            && if exists k :: (m, k) in claimed then Apply(d, ClaimCheck(n, worker), now) == Ok(after) else after == d
  {
    hide CountsValid, ClaimValid, ConfirmationValid, SettlementValid, ValidWorkerId;
    var n, after := d.message.attemptCount, ChecksTaken(d, m, worker, now, claimed);
    assert forall k :: (m, k) in claimed ==> k == n;
    if (m, n) in claimed {
      assert after.checkpoints == ClaimedCheck(d, n, worker, now).checkpoints;
    } else {
      assert after.checkpoints == d.checkpoints;
    }
  }
}
