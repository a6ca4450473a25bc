/** The delivery store of one tenant.  `rows` holds every outbox message with its attempt, checkpoint,
    dead-letter and receipt rows; a method updates them statement by statement inside one transaction and is
    proved equal to one step, or one batch of steps, of the rules. */
module DeliveryStore {
  import opened Wrappers
  import opened Texts
  import opened RetryPolicy
  import opened DeliveryRules
  import opened DeliverySafety
  import opened DueSelection
  import opened DeliveryTables

  /** A transaction either leaves the tables as `step` says or reports its error and changes nothing. */
  ghost predicate Outcome(before: Db, after: Db, step: Result<Db, StoreError>, error: Option<StoreError>) {
    match step
    case Ok(db) => after == db && error.None?
    case Err(e) => after == before && error == Some(e)
  }

  class WorkflowDeliveryStore {
    var rows: Db
    var switches: set<Switch>

    constructor ()
      ensures rows == map[] && switches == {}
    {
      rows, switches := map[], {};
    }

    // -------------------------------------------------------------- statements shared by the methods

    method UpdateMessage(id: Text, message: Message)
      requires id in rows
      modifies this`rows
      ensures rows == old(rows)[id := old(rows)[id].(message := message)]
    {
      rows := rows[id := rows[id].(message := message)];
    }

    method UpdateAttempt(id: Text, n: nat, attempt: Attempt)
      requires id in rows
      modifies this`rows
      ensures rows == old(rows)[id := old(rows)[id].(attempts := old(rows)[id].attempts[n := attempt])]
    {
      rows := rows[id := rows[id].(attempts := rows[id].attempts[n := attempt])];
    }

    method InsertCheckpoint(id: Text, n: nat, now: int)
      requires id in rows && rows[id].message.attemptCount == n
      modifies this`rows
      ensures rows == old(rows)[id := WithCheckpoint(old(rows)[id], now)]
    {
      if n !in rows[id].checkpoints {
        var check := Checkpoint(rows[id].receipt.committedVersion, CheckPending, None, None, 0, None, now, now);
        rows := rows[id := rows[id].(checkpoints := rows[id].checkpoints[n := check])];
      }
    }

    method InsertDeadLetter(id: Text, letter: Letter)
      requires id in rows
      modifies this`rows
      ensures rows == old(rows)[id := WithDeadLetter(old(rows)[id], letter)]
    {
      if rows[id].deadLetter.None? {
        rows := rows[id := rows[id].(deadLetter := Some(letter))];
      }
    }

    // -------------------------------------------------------------- deliveries

    method ReclaimRow(id: Text, now: int)
      requires id in rows && Expired(rows[id], now)
      modifies this`rows
      ensures rows == old(rows)[id := Reclaimed(old(rows)[id], now)]
    {
      var row := rows[id].message;
      var n := row.attemptCount;
      if n in rows[id].attempts && rows[id].attempts[n].result == AttemptStarted {
        UpdateAttempt(id, n, rows[id].attempts[n].(
          result := AttemptReconcile, failureClass := Some(AmbiguousAfterAck)));
        UpdateMessage(id, row.(state := ReconciliationRequired, lease := None,
                               failureClass := Some(AmbiguousAfterAck),
                               errorCode := Some(WorkerLostAfterDispatch)));
        InsertCheckpoint(id, n, now);
      } else {
        var exhausted := n >= row.maxAttempts;
        if exhausted {
          InsertDeadLetter(id, Letter(TransientBeforeAck, LeaseExpired, true));
        }
        UpdateMessage(id, row.(state := if exhausted then DeadLettered else RetryScheduled, notBefore := now,
                               lease := None, failureClass := Some(TransientBeforeAck),
                               errorCode := Some(LeaseExpired)));
      }
    }

    method ReclaimExpired(now: int, locked: set<Text>)
      modifies this`rows
      ensures rows == SweptDb(old(rows), now, locked)
    {
      ghost var before := rows;
      var todo := set m | m in rows && m !in locked && rows[m].message.state == Claimed
                          && rows[m].message.lease.Some? && rows[m].message.lease.value.expiresAt <= now;
      while todo != {}
        invariant rows.Keys == before.Keys && todo <= before.Keys
        invariant forall m :: m in todo ==> Expired(before[m], now) && m !in locked && rows[m] == before[m]
        invariant forall m :: m in before && m !in todo ==> rows[m] == Swept(before[m], now, m in locked)
        decreases todo
      {
        var m :| m in todo;
        ReclaimRow(m, now);
        todo := todo - {m};
      }
    }

    method ClaimDueOutbox(limit: Option<int>, worker: Text, now: int, locked: set<Text>)
      returns (r: Result<seq<Text>, StoreError>)
      modifies this`rows
      ensures r.Ok? <==> ValidWorkerId(worker)
      ensures r.Err? ==> r.error == WorkerIdInvalid && rows == old(rows)
      ensures r.Ok? ==>
                var swept := SweptDb(old(rows), now, locked);
                && EarliestFirst(DueDeliveries(swept, now, locked, switches), BoundedLimit(limit), r.value)
                && rows == ClaimedDb(swept, worker, now, r.value)
    {
      hide ValidWorkerId, EarliestFirst, SwitchedOff, SweptDb;
      if !ValidWorkerId(worker) {
        return Err(WorkerIdInvalid);
      }
      ReclaimExpired(now, locked);
      var due := map m | m in rows && m !in locked
                         && (rows[m].message.state == Pending || rows[m].message.state == RetryScheduled)
                         && rows[m].message.notBefore <= now
                         && rows[m].message.attemptCount < rows[m].message.maxAttempts
                         && !SwitchedOff(switches, rows[m].message.destination)
                   :: Turn(rows[m].message.notBefore, rows[m].message.createdAt);
      assert due == DueDeliveries(rows, now, locked, switches);
      var claimed := TakeEarliest(due, BoundedLimit(limit));
      rows := map m | m in rows ::
                if m in claimed
                then rows[m].(message := rows[m].message.(
                       state := Claimed, attemptCount := rows[m].message.attemptCount + 1,
                       lease := Some(Lease(worker, now, now + WORKER_LEASE_MS, now + WORKER_REQUEST_DEADLINE_MS))))
                else rows[m];
      return Ok(claimed);
    }

    method LockOwnedOutbox(id: Text, worker: Text, now: int) returns (r: Result<Message, StoreError>)
      ensures r == if !ValidWorkerId(worker) then Err(WorkerIdInvalid)
                   else if id in rows && OwnsLease(rows[id], worker, now) then Ok(rows[id].message)
                   else Err(LeaseNotOwned)
    {
      if !ValidWorkerId(worker) {
        return Err(WorkerIdInvalid);
      }
      if id in rows {
        var row := rows[id].message;
        if row.state == Claimed && row.lease.Some? && row.lease.value.owner == worker
           && row.lease.value.expiresAt > now && row.lease.value.requestDeadlineAt > now {
          return Ok(row);
        }
      }
      return Err(LeaseNotOwned);
    }

    method HeartbeatOutbox(id: Text, worker: Text, now: int) returns (error: Option<StoreError>)
      modifies this`rows
      ensures Outcome(old(rows), rows, Stepped(old(rows), id, Heartbeat(worker), now, LeaseNotOwned), error)
    {
      var row := LockOwnedOutbox(id, worker, now);
      if row.Err? {
        return Some(row.error);
      }
      UpdateMessage(id, row.value.(lease := Some(row.value.lease.value.(expiresAt := now + WORKER_LEASE_MS))));
      return None;
    }

    method RecordDispatchStarted(id: Text, requestRef: Text, worker: Text, now: int)
      returns (r: Result<nat, StoreError>)
      modifies this`rows
      ensures Outcome(old(rows), rows, Stepped(old(rows), id, Start(worker, requestRef), now, LeaseNotOwned),
                      if r.Ok? then None else Some(r.error))
      ensures r.Ok? ==> r.value == old(rows)[id].message.attemptCount
    {
      var row := LockOwnedOutbox(id, worker, now);
      if row.Err? {
        return Err(row.error);
      }
      var n := row.value.attemptCount;
      if n in rows[id].attempts {
        return Err(AttemptExists);
      }
      UpdateAttempt(id, n, Attempt(AttemptStarted, None, Some(requestRef), None, None));
      return Ok(n);
    }

    method RecordProviderAcknowledgement(id: Text, acknowledgementRef: Text, worker: Text, now: int)
      returns (error: Option<StoreError>)
      modifies this`rows
      ensures Outcome(old(rows), rows,
                      Stepped(old(rows), id, Acknowledge(worker, acknowledgementRef), now, LeaseNotOwned), error)
    {
      if Blank(acknowledgementRef) {
        return Some(AckRefRequired);
      }
      var row := LockOwnedOutbox(id, worker, now);
      if row.Err? {
        return Some(row.error);
      }
      var n := row.value.attemptCount;
      if n !in rows[id].attempts || rows[id].attempts[n].result != AttemptStarted {
        return Some(DispatchStartMissing);
      }
      UpdateAttempt(id, n, rows[id].attempts[n].(
        result := Succeeded, acknowledgementRef := Some(acknowledgementRef)));
      InsertCheckpoint(id, n, now);
      UpdateMessage(id, row.value.(state := ProviderAcknowledged, lease := None, acknowledgedAt := Some(now),
                                   acknowledgementRef := Some(acknowledgementRef)));
      return None;
    }

    method RecordOutboxFailure(
      id: Text, failure: FailureClass, errorCode: Text, retryAfterMs: Option<int>, digestByte: bv8,
      worker: Text, appNow: int, now: int)
      returns (r: Result<OutboxState, StoreError>)
      modifies this`rows
      ensures Outcome(old(rows), rows,
                      Stepped(old(rows), id,
                              Fail(worker, failure, errorCode, retryAfterMs, digestByte, appNow), now, LeaseNotOwned),
                      if r.Ok? then None else Some(r.error))
      ensures r.Ok? ==> id in rows && r.value == rows[id].message.state
    {
      hide ValidWorkerId, DecideRetry, Power;
      var row := LockOwnedOutbox(id, worker, now);
      if row.Err? {
        return Err(row.error);
      }
      var n := row.value.attemptCount;
      var decided := DecideRetry(n, failure, false, appNow, Policy(2, 1_000, row.value.maxAttempts, RETRY_MAX_DELAY_MS),
                                 retryAfterMs, digestByte);
      if decided.Err? {
        return Err(AttemptNotPositive);
      }
      var decision := decided.value;
      UpdateAttempt(id, n,
        if n in rows[id].attempts
        then rows[id].attempts[n].(failureClass := Some(failure), result := AttemptAfter(decision))
        else Attempt(AttemptAfter(decision), Some(failure), None, None, None));
      UpdateMessage(id, row.value.(
        state := StateAfter(decision), lease := None, failureClass := Some(failure),
        errorCode := Some(Reported(errorCode)),
        notBefore := if decision.Retry? then decision.retryAt else row.value.notBefore));
      ghost var moved := rows[id];
      assert rows == old(rows)[id := moved];
      if decision.Reconcile? {
        InsertCheckpoint(id, n, now);
      }
      if decision.DeadLetter? {
        InsertDeadLetter(id, Letter(failure, Reported(errorCode), true));
      }
      assert rows == old(rows)[id := Failed(old(rows)[id], decision, failure, errorCode, now)];
      return Ok(StateAfter(decision));
    }

    // -------------------------------------------------------------- reconciliations

    method UpdateCheckpoint(id: Text, n: nat, check: Checkpoint)
      requires id in rows
      modifies this`rows
      ensures rows == old(rows)[id := old(rows)[id].(checkpoints := old(rows)[id].checkpoints[n := check])]
    {
      rows := rows[id := rows[id].(checkpoints := rows[id].checkpoints[n := check])];
    }

    /** Mark message and receipt as confirmed by one readback. */
    method ConfirmSource(id: Text, readbackRef: Option<Text>, now: int)
      requires id in rows
      modifies this`rows
      ensures rows == old(rows)[id := Confirmed(old(rows)[id], readbackRef, now)]
    {
      UpdateMessage(id, rows[id].message.(
        state := SourceConfirmed, confirmedAt := Some(now), readbackRef := readbackRef));
      rows := rows[id := rows[id].(receipt := rows[id].receipt.(
        state := ReceiptConfirmed, confirmedAt := Some(now), readbackRef := readbackRef))];
    }

    method RecordReconciliation(
      id: Text, n: nat, observation: Observation, observedVersion: Option<Text>, readbackRef: Option<Text>,
      now: int)
      returns (error: Option<StoreError>)
      modifies this`rows
      ensures Outcome(old(rows), rows,
                      Stepped(old(rows), id, CloseByOperator(n, observation, observedVersion, readbackRef), now,
                              ReconciliationMissing), error)
    {
      if observation == Matched && !HasText(readbackRef) {
        return Some(ReadbackRefRequired);
      }
      if id !in rows || n !in rows[id].checkpoints || rows[id].checkpoints[n].result != CheckPending {
        return Some(ReconciliationMissing);
      }
      if rows[id].checkpoints[n].lease.Some? {
        return Some(ReconciliationLeaseHeld);
      }
      UpdateCheckpoint(id, n, rows[id].checkpoints[n].(
        result := Closed(observation), observedVersion := observedVersion, readbackRef := readbackRef,
        checkedAt := now));
      if observation == Matched {
        ConfirmSource(id, readbackRef, now);
      }
      return None;
    }

    method ClaimDueReconciliations(limit: Option<int>, worker: Text, now: int, locked: set<(Text, nat)>)
      returns (r: Result<seq<(Text, nat)>, StoreError>)
      modifies this`rows
      ensures r.Ok? <==> ValidWorkerId(worker)
      ensures r.Err? ==> r.error == WorkerIdInvalid && rows == old(rows)
      ensures r.Ok? ==>
                var swept := CheckSweptDb(old(rows), now);
                && EarliestFirst(DueChecks(swept, now, locked), BoundedLimit(limit), r.value)
                && rows == ChecksTakenDb(swept, worker, now, r.value)
    {
      if !ValidWorkerId(worker) {
        return Err(WorkerIdInvalid);
      }
      rows := CheckSweptDb(rows, now);
      var claimed := TakeEarliest(DueChecks(rows, now, locked), BoundedLimit(limit));
      rows := ChecksTakenDb(rows, worker, now, claimed);
      return Ok(claimed);
    }

    method CompleteClaimedReconciliation(
      id: Text, n: nat, observation: Observation, observedVersion: Option<Text>, readbackRef: Option<Text>,
      worker: Text, appNow: int, now: int)
      returns (r: Result<bool, StoreError>)
      modifies this`rows
      ensures Outcome(old(rows), rows,
                      Stepped(old(rows), id,
                              CompleteCheck(n, worker, observation, observedVersion, readbackRef, appNow), now,
                              ReconciliationLeaseNotOwned),
                      if r.Ok? then None else Some(r.error))
      ensures r.Ok? ==> (r.value <==> rows[id].checkpoints[n].result == CheckPending)
    {
      hide ValidWorkerId, Blank, Power;
      if observation == Matched && !HasText(readbackRef) {
        return Err(ReadbackRefRequired);
      }
      if !ValidWorkerId(worker) {
        return Err(WorkerIdInvalid);
      }
      if id !in rows || n !in rows[id].checkpoints || rows[id].checkpoints[n].result != CheckPending
         || rows[id].checkpoints[n].lease.None? || rows[id].checkpoints[n].lease.value.owner != worker
         || rows[id].checkpoints[n].lease.value.expiresAt <= now {
        return Err(ReconciliationLeaseNotOwned);
      }
      var check := rows[id].checkpoints[n];
      if observation == Matched && observedVersion != Some(check.expectedVersion) {
        return Err(ReadbackVersionMismatch);
      }
      var current := rows[id].message.attemptCount;
      var exhausted := current >= rows[id].message.maxAttempts;
      var again := (observation == Ambiguous || observation == SourceUnavailable)
                   && check.attemptCount < RECONCILIATION_MAX_ATTEMPTS;
      UpdateCheckpoint(id, n, check.(
        result := if again then CheckPending else Closed(observation), observedVersion := observedVersion,
        readbackRef := readbackRef, checkedAt := now, lease := None,
        nextCheckAt := if again
                       then appNow + Min(RETRY_MAX_DELAY_MS, 1_000 * Power(2, Max(0, check.attemptCount - 1)))
                       else check.nextCheckAt));
      ghost var e := CompleteCheck(n, worker, observation, observedVersion, readbackRef, appNow);
      ghost var recorded := RecordedAnswer(old(rows)[id], e, now);
      assert rows == old(rows)[id := recorded];
      if observation == Matched {
        ConfirmSource(id, readbackRef, now);
        if current in rows[id].attempts {
          UpdateAttempt(id, current, rows[id].attempts[current].(readbackRef := readbackRef));
        }
      } else if observation == NotFound {
        if exhausted {
          InsertDeadLetter(id, Letter(Permanent, ReconciliationRetryExhausted, false));
        }
        UpdateMessage(id, rows[id].message.(
          state := if exhausted then DeadLettered else RetryScheduled, notBefore := now,
          failureClass := Some(if exhausted then Permanent else TransientBeforeAck),
          errorCode := Some(if exhausted then ReconciliationRetryExhausted else SourceConfirmedAbsent)));
      } else if !again {
        UpdateMessage(id, rows[id].message.(
          state := Blocked, failureClass := Some(PolicyBlocked),
          errorCode := Some(if observation == VersionMismatch then SourceVersionMismatch
                            else ReconciliationBudgetExhausted)));
      }
      assert rows == old(rows)[id := AfterObservation(recorded, e, again, now)];
      return Ok(again);
    }
  }
}
