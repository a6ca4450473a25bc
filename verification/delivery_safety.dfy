/** What every step of one message keeps, and what that means for whole runs. */
module DeliverySafety {
  import opened Wrappers
  import opened Texts
  import opened RetryPolicy
  import opened DeliveryRules

  /** The row as the command ledger inserts it. */
  predicate Fresh(d: Delivery) {
    && d.message.state == Pending && d.message.attemptCount == 0 && d.message.maxAttempts >= 1
    && d.message.lease.None? && d.message.confirmedAt.None? && d.message.readbackRef.None?
    && d.message.acknowledgedAt.None?
    && d.attempts == map[] && d.checkpoints == map[] && d.deadLetter.None?
    && d.receipt.state == DispatchPending && d.receipt.confirmedAt.None? && d.receipt.readbackRef.None?
  }

  predicate Dispatched(d: Delivery, n: nat) { n in d.attempts && d.attempts[n].requestRef.Some? }

  predicate AwaitingSource(d: Delivery) {
    d.message.state == ProviderAcknowledged || d.message.state == ReconciliationRequired
  }

  predicate Terminal(d: Delivery) {
    d.message.state == SourceConfirmed || d.message.state == DeadLettered || d.message.state == Blocked
  }

  /** The durable evidence that attempt `n` may be followed by another one. */
  predicate SettledInRows(d: Delivery, n: nat)
    requires n in d.attempts
  {
    || (d.attempts[n].result == AttemptRetry && d.attempts[n].failureClass.Some?
        && RetryableBeforeAck(d.attempts[n].failureClass.value))
    || (n in d.checkpoints && d.checkpoints[n].result == Closed(NotFound))
  }

  ghost predicate CountsValid(d: Delivery) {
    var n := d.message.attemptCount;
    && 1 <= d.message.maxAttempts && n <= d.message.maxAttempts
    && (d.message.state == Pending || d.message.state == RetryScheduled ==> n < d.message.maxAttempts)
    && (d.message.state == Pending <==> n == 0)
    && (forall k :: k in d.attempts ==> 1 <= k <= n)
    && (forall k :: k in d.checkpoints ==> k in d.attempts)
  }

  ghost predicate ClaimValid(d: Delivery) {
    var n := d.message.attemptCount;
    && (d.message.state == Claimed <==> d.message.lease.Some?)
    && (d.message.state == Claimed ==>
          n !in d.checkpoints && (n in d.attempts ==> d.attempts[n].result == AttemptStarted && Dispatched(d, n)))
    && (forall k :: k in d.attempts && d.attempts[k].result == AttemptStarted ==> d.message.state == Claimed && k == n)
  }

  ghost predicate ChecksValid(d: Delivery) {
    var n := d.message.attemptCount;
    && (forall k :: k in d.checkpoints && d.checkpoints[k].result == CheckPending ==> k == n && AwaitingSource(d))
    && (AwaitingSource(d) ==> n in d.checkpoints && d.checkpoints[n].result != Closed(Matched))
    && (forall k :: k in d.checkpoints ==>
          && d.checkpoints[k].expectedVersion == d.receipt.committedVersion
          && d.checkpoints[k].attemptCount <= RECONCILIATION_MAX_ATTEMPTS
          && (d.checkpoints[k].lease.Some? ==>
                d.checkpoints[k].result == CheckPending && d.checkpoints[k].attemptCount >= 1))
  }

  /** The message and its receipt are confirmed together, on one matched readback of the current attempt;
      the attempt row carries the readback only when the check was leased, and then the version was exact. */
  ghost predicate ConfirmationValid(d: Delivery) {
    var n := d.message.attemptCount;
    && (d.message.state == SourceConfirmed <==> d.receipt.state == ReceiptConfirmed)
    && d.message.confirmedAt == d.receipt.confirmedAt && d.message.readbackRef == d.receipt.readbackRef
    && (d.message.state == SourceConfirmed <==> d.message.confirmedAt.Some?)
    && (d.message.state == SourceConfirmed <==> d.message.readbackRef.Some?)
    && (d.message.state == SourceConfirmed ==>
          && n in d.checkpoints && d.checkpoints[n].result == Closed(Matched)
          && HasText(d.message.readbackRef) && d.checkpoints[n].readbackRef == d.message.readbackRef
          && (n in d.attempts && d.attempts[n].readbackRef.Some? ==>
                d.checkpoints[n].observedVersion == Some(d.receipt.committedVersion)))
    && (forall k :: k in d.attempts && d.attempts[k].readbackRef.Some? ==> d.message.state == SourceConfirmed && k == n)
    && (d.message.acknowledgedAt.Some? ==> d.checkpoints != map[])
  }

  ghost predicate SettlementValid(d: Delivery) {
    forall k :: k in d.attempts ==>
      (d.attempts[k].requestRef.Some? && (k < d.message.attemptCount || d.message.state == RetryScheduled)
       ==> SettledInRows(d, k))
  }

  ghost predicate Inv(d: Delivery) {
    && CountsValid(d) && ClaimValid(d) && ChecksValid(d) && ConfirmationValid(d) && SettlementValid(d)
    && (d.deadLetter.Some? <==> d.message.state == DeadLettered)
  }

  lemma FreshIsValid(d: Delivery)
    requires Fresh(d)
    ensures Inv(d)
  {}

  lemma ReclaimKeepsInv(d: Delivery, now: int)
    requires Inv(d) && Expired(d, now)
    ensures Inv(Reclaimed(d, now))
  {
    hide Blank;
    var r := Reclaimed(d, now);
    if DispatchStarted(d) {
      assert CountsValid(r) && ClaimValid(r) && ChecksValid(r);
    } else {
      assert r.attempts == d.attempts && r.checkpoints == d.checkpoints && r.receipt == d.receipt;
    }
  }

  lemma ClaimKeepsInv(d: Delivery, worker: Text, now: int)
    requires Inv(d) && Due(d, now)
    ensures Inv(ClaimedBy(d, worker, now))
  {}

  lemma StartKeepsInv(d: Delivery, requestRef: Text)
    requires Inv(d) && d.message.state == Claimed && d.message.attemptCount !in d.attempts
    ensures Inv(DispatchStart(d, requestRef))
  {}

  lemma AcknowledgeKeepsInv(d: Delivery, acknowledgementRef: Text, now: int)
    requires Inv(d) && DispatchStarted(d)
    ensures Inv(Acknowledged(d, acknowledgementRef, now))
  {}

  lemma RetryKeepsInv(d: Delivery, decision: Decision, failure: FailureClass, errorCode: Text, now: int)
    requires Inv(d) && d.message.state == Claimed && decision.Retry?
    requires RetryableBeforeAck(failure) && d.message.attemptCount < d.message.maxAttempts
    ensures Inv(Failed(d, decision, failure, errorCode, now))
  {}

  lemma GiveUpKeepsInv(d: Delivery, failure: FailureClass, errorCode: Text, now: int)
    requires Inv(d) && d.message.state == Claimed
    ensures Inv(Failed(d, DeadLetter, failure, errorCode, now))
  {}

  lemma AmbiguousKeepsInv(d: Delivery, failure: FailureClass, errorCode: Text, now: int)
    requires Inv(d) && d.message.state == Claimed
    ensures Inv(Failed(d, Reconcile, failure, errorCode, now))
  {
    hide Blank;
  }

  /** Recording an answer on the pending checkpoint: its lease ends, the rest of the row is the answer. */
  ghost predicate Recorded(d: Delivery, r: Delivery) {
    var n := d.message.attemptCount;
    && n in d.checkpoints && n in r.checkpoints
    && r == d.(checkpoints := d.checkpoints[n := r.checkpoints[n]])
    && r.checkpoints[n].expectedVersion == d.checkpoints[n].expectedVersion
    && r.checkpoints[n].attemptCount == d.checkpoints[n].attemptCount
    && r.checkpoints[n].lease.None?
  }

  lemma ConfirmKeepsInv(d: Delivery, r: Delivery, now: int, leased: bool)
    requires Inv(d) && AwaitingSource(d) && Recorded(d, r)
    requires var check := r.checkpoints[d.message.attemptCount];
             && check.result == Closed(Matched) && HasText(check.readbackRef)
             && (leased ==> check.observedVersion == Some(check.expectedVersion))
    ensures var n := d.message.attemptCount;
            var ref := r.checkpoints[n].readbackRef;
            var confirmed := Confirmed(r, ref, now);
            && n in d.attempts
            && Inv(if leased then confirmed.(attempts := d.attempts[n := d.attempts[n].(readbackRef := ref)])
                   else confirmed)
  {}

  lemma AnswerKeepsInv(d: Delivery, r: Delivery)
    requires Inv(d) && AwaitingSource(d) && Recorded(d, r)
    requires r.checkpoints[d.message.attemptCount].result != Closed(Matched)
    ensures Inv(r)
  {}

  lemma CloseKeepsInv(d: Delivery, e: Event, now: int)
    requires Inv(d) && e.CloseByOperator? && InputError(e).None? && ClosedByOperator(d, e, now).Ok?
    ensures Inv(ClosedByOperator(d, e, now).value)
  {
    var r := d.(checkpoints := d.checkpoints[e.attempt := d.checkpoints[e.attempt].(
                  result := Closed(e.observation), observedVersion := e.observedVersion,
                  readbackRef := e.readbackRef, checkedAt := now)]);
    if e.observation == Matched {
      ConfirmKeepsInv(d, r, now, false);
    } else {
      AnswerKeepsInv(d, r);
    }
  }

  lemma NotFoundKeepsInv(d: Delivery, e: Event, now: int)
    requires Inv(d) && AwaitingSource(d) && e.CompleteCheck? && e.observation == NotFound
    requires d.checkpoints[d.message.attemptCount].result == Closed(NotFound)
    ensures Inv(AfterObservation(d, e, false, now))
  {}

  lemma BlockKeepsInv(d: Delivery, e: Event, now: int)
    requires Inv(d) && AwaitingSource(d) && e.CompleteCheck? && e.observation != NotFound && e.observation != Matched
    requires d.checkpoints[d.message.attemptCount].result != CheckPending
    ensures Inv(AfterObservation(d, e, false, now))
  {}

  lemma CompleteKeepsInv(d: Delivery, e: Event, now: int)
    requires Inv(d) && e.CompleteCheck? && InputError(e).None? && CompletedCheck(d, e, now).Ok?
    ensures Inv(CompletedCheck(d, e, now).value)
  {
    var r := RecordedAnswer(d, e, now);
    if e.observation == Matched {
      ConfirmKeepsInv(d, r, now, true);
    } else {
      AnswerKeepsInv(d, r);
      if e.observation == NotFound {
        NotFoundKeepsInv(r, e, now);
      } else if !PendingAgain(d.checkpoints[e.attempt], e.observation) {
        BlockKeepsInv(r, e, now);
      }
    }
  }

  lemma HeartbeatKeepsInv(d: Delivery, lease: Lease)
    requires Inv(d) && d.message.state == Claimed
    ensures Inv(d.(message := d.message.(lease := Some(lease))))
  {}

  lemma CheckLeaseKeepsInv(d: Delivery, check: Checkpoint)
    requires Inv(d) && AwaitingSource(d)
    requires var current := d.checkpoints[d.message.attemptCount];
             && current.result == CheckPending
             && check == current.(lease := check.lease, attemptCount := check.attemptCount,
                                  nextCheckAt := check.nextCheckAt)
             && check.attemptCount <= RECONCILIATION_MAX_ATTEMPTS
             && (check.lease.Some? ==> check.attemptCount >= 1)
    ensures Inv(d.(checkpoints := d.checkpoints[d.message.attemptCount := check]))
  {}

  /** The inductive invariant of the whole protocol. */
  lemma StepKeepsInv(d: Delivery, e: Event, now: int)
    requires Inv(d) && Apply(d, e, now).Ok?
    ensures Inv(Apply(d, e, now).value)
  {
    match e
    case Reclaim => ReclaimKeepsInv(d, now);
    case Claim(worker) => ClaimKeepsInv(d, worker, now);
    case Start(worker, requestRef) => StartKeepsInv(d, requestRef);
    case Acknowledge(worker, acknowledgementRef) => AcknowledgeKeepsInv(d, acknowledgementRef, now);
    case Fail(worker, failure, errorCode, retryAfterMs, digestByte, appNow) =>
      var decision := DecideRetry(d.message.attemptCount, failure, false, appNow, DeliveryPolicy(d),
                                  retryAfterMs, digestByte).value;
      match decision {
        case Retry(_, _) => RetryKeepsInv(d, decision, failure, errorCode, now);
        case DeadLetter => GiveUpKeepsInv(d, failure, errorCode, now);
        case Reconcile => AmbiguousKeepsInv(d, failure, errorCode, now);
      }
    case CloseByOperator(_, _, _, _) => CloseKeepsInv(d, e, now);
    case CompleteCheck(_, _, _, _, _, _) => CompleteKeepsInv(d, e, now);
    case Heartbeat(_) => HeartbeatKeepsInv(d, Apply(d, e, now).value.message.lease.value);
    case ReleaseCheck(n) => CheckLeaseKeepsInv(d, Apply(d, e, now).value.checkpoints[n]);
    case ClaimCheck(n, _) => CheckLeaseKeepsInv(d, Apply(d, e, now).value.checkpoints[n]);
  }
}
