/** One outbox message with everything the store keeps about it, and the atomic steps the store's methods
    take on it.  Every row of the attempt, checkpoint, dead-letter and receipt tables belongs to exactly one
    message: attempts are unique per (message, attempt number), a checkpoint's id is built from message and
    attempt number, a dead letter is unique per message, and a receipt has one outbox message. */
module DeliveryRules {
  import opened Wrappers
  import opened Texts
  import opened RetryPolicy

  const WORKER_LEASE_MS := 60_000
  const WORKER_REQUEST_DEADLINE_MS := 45_000
  const RECONCILIATION_MAX_ATTEMPTS := 5
  const RETRY_MAX_DELAY_MS := 900_000

  datatype StoreError =
    | WorkerIdInvalid | LeaseNotOwned | AckRefRequired | DispatchStartMissing | AttemptExists
    | ReadbackRefRequired | ReconciliationMissing | ReconciliationLeaseHeld
    | ReconciliationLeaseNotOwned | ReadbackVersionMismatch | NotEligible | AttemptNotPositive

  datatype OutboxState =
    | Pending | Claimed | ProviderAcknowledged | SourceConfirmed | RetryScheduled
    | ReconciliationRequired | DeadLettered | Blocked

  /** The store's own error codes, and those that a worker reports. */
  datatype ErrorCode =
    | WorkerLostAfterDispatch | LeaseExpired | ReconciliationRetryExhausted | SourceConfirmedAbsent
    | SourceVersionMismatch | ReconciliationBudgetExhausted | Reported(code: Text)

  /** The lease columns of an outbox row: all null, or all present while the row is claimed. */
  datatype Lease = Lease(owner: Text, lockedAt: int, expiresAt: int, requestDeadlineAt: int)

  datatype Message = Message(
    destination: Text, createdAt: int, maxAttempts: nat,
    state: OutboxState, attemptCount: nat, notBefore: int, lease: Option<Lease>,
    acknowledgedAt: Option<int>, acknowledgementRef: Option<Text>,
    confirmedAt: Option<int>, readbackRef: Option<Text>,
    failureClass: Option<FailureClass>, errorCode: Option<ErrorCode>)

  datatype AttemptResult = AttemptStarted | Succeeded | AttemptFailed | AttemptRetry | AttemptReconcile

  /** `requestRef` is written by the durable dispatch start and by nothing else. */
  datatype Attempt = Attempt(
    result: AttemptResult, failureClass: Option<FailureClass>, requestRef: Option<Text>,
    acknowledgementRef: Option<Text>, readbackRef: Option<Text>)

  datatype Observation = Ambiguous | Matched | NotFound | SourceUnavailable | VersionMismatch

  datatype CheckResult = CheckPending | Closed(observation: Observation)

  datatype CheckLease = CheckLease(owner: Text, startedAt: int, expiresAt: int)

  datatype Checkpoint = Checkpoint(
    expectedVersion: Text, result: CheckResult, observedVersion: Option<Text>,
    readbackRef: Option<Text>, attemptCount: nat, lease: Option<CheckLease>,
    nextCheckAt: int, checkedAt: int)

  datatype Letter = Letter(failureClass: FailureClass, errorCode: ErrorCode, replayAfterRepair: bool)

  datatype ReceiptState = DispatchPending | ReceiptConfirmed

  datatype Receipt = Receipt(
    committedVersion: Text, committedAt: int, state: ReceiptState,
    confirmedAt: Option<int>, readbackRef: Option<Text>)

  datatype Delivery = Delivery(
    message: Message, attempts: map<nat, Attempt>, checkpoints: map<nat, Checkpoint>,
    deadLetter: Option<Letter>, receipt: Receipt)

  /** A step of one message.  `appNow` is the worker's own clock, which sets retry and re-check times. */
  datatype Event =
    | Reclaim
    | Claim(worker: Text)
    | Heartbeat(worker: Text)
    | Start(worker: Text, requestRef: Text)
    | Acknowledge(worker: Text, acknowledgementRef: Text)
    | Fail(worker: Text, failure: FailureClass, errorCode: Text, retryAfterMs: Option<int>,
           digestByte: bv8, appNow: int)
    | CloseByOperator(attempt: nat, observation: Observation, observedVersion: Option<Text>,
                      readbackRef: Option<Text>)
    | ReleaseCheck(attempt: nat)
    | ClaimCheck(attempt: nat, worker: Text)
    | CompleteCheck(attempt: nat, worker: Text, observation: Observation, observedVersion: Option<Text>,
                    readbackRef: Option<Text>, appNow: int)

  // ---------------------------------------------------------------- text

  predicate HasText(s: Option<Text>) { s.Some? && !Blank(s.value) }

  /** A letter, a digit, a full stop, an underscore, a colon, an at sign or a hyphen. */
  predicate IsWorkerCharacter(u: Unit) {
    65 <= u <= 90 || 97 <= u <= 122 || 48 <= u <= 57 || u == 46 || u == 95 || u == 58 || u == 64 || u == 45
  }

  predicate ValidWorkerId(worker: Text) {
    1 <= |worker| <= 190 && forall i :: 0 <= i < |worker| ==> IsWorkerCharacter(worker[i])
  }

  // ---------------------------------------------------------------- shared fragments

  predicate Expired(d: Delivery, now: int) {
    d.message.state == Claimed && d.message.lease.Some? && d.message.lease.value.expiresAt <= now
  }

  predicate DispatchStarted(d: Delivery) {
    var n := d.message.attemptCount;
    n in d.attempts && d.attempts[n].result == AttemptStarted
  }

  predicate Due(d: Delivery, now: int) {
    && (d.message.state == Pending || d.message.state == RetryScheduled)
    && d.message.notBefore <= now
    && d.message.attemptCount < d.message.maxAttempts
  }

  predicate OwnsLease(d: Delivery, worker: Text, now: int) {
    && d.message.state == Claimed && d.message.lease.Some?
    && d.message.lease.value.owner == worker
    && d.message.lease.value.expiresAt > now
    && d.message.lease.value.requestDeadlineAt > now
  }

  /** Insert a pending checkpoint for the current attempt, doing nothing when it already exists. */
  function WithCheckpoint(d: Delivery, now: int): Delivery {
    var n := d.message.attemptCount;
    if n in d.checkpoints then d
    else d.(checkpoints := d.checkpoints[n :=
             Checkpoint(d.receipt.committedVersion, CheckPending, None, None, 0, None, now, now)])
  }

  function WithDeadLetter(d: Delivery, letter: Letter): Delivery {
    if d.deadLetter.Some? then d else d.(deadLetter := Some(letter))
  }

  function Confirmed(d: Delivery, readbackRef: Option<Text>, now: int): Delivery {
    d.(message := d.message.(state := SourceConfirmed, confirmedAt := Some(now), readbackRef := readbackRef),
       receipt := d.receipt.(state := ReceiptConfirmed, confirmedAt := Some(now), readbackRef := readbackRef))
  }

  // ---------------------------------------------------------------- steps

  function Reclaimed(d: Delivery, now: int): Delivery
    requires Expired(d, now)
  {
    var n := d.message.attemptCount;
    var freed := d.message.(lease := None);
    if DispatchStarted(d) then
      WithCheckpoint(
        d.(message := freed.(state := ReconciliationRequired, failureClass := Some(AmbiguousAfterAck),
                             errorCode := Some(WorkerLostAfterDispatch)),
           attempts := d.attempts[n := d.attempts[n].(result := AttemptReconcile,
                                                      failureClass := Some(AmbiguousAfterAck))]),
        now)
    else
      var exhausted := n >= d.message.maxAttempts;
      var moved := d.(message := freed.(state := if exhausted then DeadLettered else RetryScheduled,
                                        notBefore := now, failureClass := Some(TransientBeforeAck),
                                        errorCode := Some(LeaseExpired)));
      if exhausted then WithDeadLetter(moved, Letter(TransientBeforeAck, LeaseExpired, true)) else moved
  }

  function ClaimedBy(d: Delivery, worker: Text, now: int): Delivery {
    d.(message := d.message.(
         state := Claimed, attemptCount := d.message.attemptCount + 1,
         lease := Some(Lease(worker, now, now + WORKER_LEASE_MS, now + WORKER_REQUEST_DEADLINE_MS))))
  }

  function DispatchStart(d: Delivery, requestRef: Text): Delivery {
    d.(attempts := d.attempts[d.message.attemptCount :=
         Attempt(AttemptStarted, None, Some(requestRef), None, None)])
  }

  function Acknowledged(d: Delivery, acknowledgementRef: Text, now: int): Delivery
    requires DispatchStarted(d)
  {
    var n := d.message.attemptCount;
    WithCheckpoint(
      d.(message := d.message.(state := ProviderAcknowledged, lease := None, acknowledgedAt := Some(now),
                               acknowledgementRef := Some(acknowledgementRef)),
         attempts := d.attempts[n := d.attempts[n].(result := Succeeded,
                                                    acknowledgementRef := Some(acknowledgementRef))]),
      now)
  }

  function DeliveryPolicy(d: Delivery): Policy {
    Policy(2, 1_000, d.message.maxAttempts, RETRY_MAX_DELAY_MS)
  }

  function StateAfter(decision: Decision): OutboxState {
    match decision
    case Retry(_, _) => RetryScheduled
    case Reconcile => ReconciliationRequired
    case Block => Blocked
    case DeadLetter => DeadLettered
  }

  function AttemptAfter(decision: Decision): AttemptResult {
    match decision
    case Retry(_, _) => AttemptRetry
    case Reconcile => AttemptReconcile
    case _ => AttemptFailed
  }

  function Failed(d: Delivery, decision: Decision, failure: FailureClass, errorCode: Text, now: int): Delivery {
    var n := d.message.attemptCount;
    var prior := if n in d.attempts then d.attempts[n] else Attempt(AttemptStarted, None, None, None, None);
    var moved := d.(
      message := d.message.(state := StateAfter(decision), lease := None, failureClass := Some(failure),
                            errorCode := Some(Reported(errorCode)),
                            notBefore := if decision.Retry? then decision.retryAt else d.message.notBefore),
      attempts := d.attempts[n := prior.(result := AttemptAfter(decision), failureClass := Some(failure))]);
    if decision.Reconcile? then WithCheckpoint(moved, now)
    else if decision.DeadLetter? then WithDeadLetter(moved, Letter(failure, Reported(errorCode), true))
    else moved
  }

  /** Anyone may close an unleased pending checkpoint; only a match moves the message.  A leased checkpoint
      is refused by the table's lease check, because closing it would leave lease columns on a closed row. */
  function ClosedByOperator(d: Delivery, e: Event, now: int): Result<Delivery, StoreError>
    requires e.CloseByOperator?
  {
    if e.attempt !in d.checkpoints || d.checkpoints[e.attempt].result != CheckPending then
      Err(ReconciliationMissing)
    else if d.checkpoints[e.attempt].lease.Some? then Err(ReconciliationLeaseHeld)
    else
      var closed := d.(checkpoints := d.checkpoints[e.attempt := d.checkpoints[e.attempt].(
                         result := Closed(e.observation), observedVersion := e.observedVersion,
                         readbackRef := e.readbackRef, checkedAt := now)]);
      Ok(if e.observation == Matched then Confirmed(closed, e.readbackRef, now) else closed)
  }

  predicate CheckLeaseExpired(d: Delivery, attempt: nat, now: int) {
    && attempt in d.checkpoints && d.checkpoints[attempt].result == CheckPending
    && d.checkpoints[attempt].lease.Some? && d.checkpoints[attempt].lease.value.expiresAt <= now
  }

  predicate CheckDue(d: Delivery, attempt: nat, now: int) {
    && attempt in d.checkpoints && d.checkpoints[attempt].result == CheckPending
    && d.checkpoints[attempt].nextCheckAt <= now && d.checkpoints[attempt].lease.None?
    && d.checkpoints[attempt].attemptCount < RECONCILIATION_MAX_ATTEMPTS
  }

  predicate OwnsCheck(d: Delivery, attempt: nat, worker: Text, now: int) {
    && attempt in d.checkpoints && d.checkpoints[attempt].result == CheckPending
    && d.checkpoints[attempt].lease.Some?
    && d.checkpoints[attempt].lease.value.owner == worker
    && d.checkpoints[attempt].lease.value.expiresAt > now
  }

  function ReleasedCheck(d: Delivery, attempt: nat, now: int): Delivery
    requires attempt in d.checkpoints
  {
    d.(checkpoints := d.checkpoints[attempt := d.checkpoints[attempt].(lease := None, nextCheckAt := now)])
  }

  function ClaimedCheck(d: Delivery, attempt: nat, worker: Text, now: int): Delivery
    requires attempt in d.checkpoints
  {
    var check := d.checkpoints[attempt];
    d.(checkpoints := d.checkpoints[attempt := check.(
         lease := Some(CheckLease(worker, now, now + WORKER_LEASE_MS)), attemptCount := check.attemptCount + 1)])
  }

  predicate PendingAgain(check: Checkpoint, observation: Observation) {
    (observation == Ambiguous || observation == SourceUnavailable) && check.attemptCount < RECONCILIATION_MAX_ATTEMPTS
  }

  /** The checkpoint row after a leased answer: its lease ends, and it stays pending when the answer was
      inconclusive and checks remain. */
  function RecordedAnswer(d: Delivery, e: Event, now: int): Delivery
    requires e.CompleteCheck? && e.attempt in d.checkpoints
  {
    var check := d.checkpoints[e.attempt];
    var again := PendingAgain(check, e.observation);
    var delay := Min(RETRY_MAX_DELAY_MS, 1_000 * Power(2, Max(0, check.attemptCount - 1)));
    d.(checkpoints := d.checkpoints[e.attempt := check.(
         result := if again then CheckPending else Closed(e.observation),
         observedVersion := e.observedVersion, readbackRef := e.readbackRef, checkedAt := now, lease := None,
         nextCheckAt := if again then e.appNow + delay else check.nextCheckAt)])
  }

  function CompletedCheck(d: Delivery, e: Event, now: int): Result<Delivery, StoreError>
    requires e.CompleteCheck?
  {
    if !OwnsCheck(d, e.attempt, e.worker, now) then Err(ReconciliationLeaseNotOwned)
    else if e.observation == Matched && e.observedVersion != Some(d.checkpoints[e.attempt].expectedVersion) then
      Err(ReadbackVersionMismatch)
    else Ok(AfterObservation(RecordedAnswer(d, e, now), e, PendingAgain(d.checkpoints[e.attempt], e.observation), now))
  }

  /** What a completed leased check does to the message, its receipt and its current attempt row. */
  function AfterObservation(d: Delivery, e: Event, again: bool, now: int): Delivery
    requires e.CompleteCheck?
  {
    var n := d.message.attemptCount;
    match e.observation
    case Matched =>
      var confirmed := Confirmed(d, e.readbackRef, now);
      if n in d.attempts
      then confirmed.(attempts := d.attempts[n := d.attempts[n].(readbackRef := e.readbackRef)])
      else confirmed
    case NotFound =>
      var exhausted := n >= d.message.maxAttempts;
      var moved := d.(message := d.message.(
                        state := if exhausted then DeadLettered else RetryScheduled, notBefore := now,
                        failureClass := Some(if exhausted then Permanent else TransientBeforeAck),
                        errorCode := Some(if exhausted then ReconciliationRetryExhausted else SourceConfirmedAbsent)));
      if exhausted
      then WithDeadLetter(moved, Letter(Permanent, ReconciliationRetryExhausted, false))
      else moved
    case _ =>
      if again then d
      else d.(message := d.message.(
                state := Blocked, failureClass := Some(PolicyBlocked),
                errorCode := Some(if e.observation == VersionMismatch then SourceVersionMismatch
                                  else ReconciliationBudgetExhausted)))
  }

  /** What a call is refused for before any row is looked at. */
  function InputError(e: Event): Option<StoreError> {
    match e
    case Claim(worker) => WorkerError(worker)
    case Heartbeat(worker) => WorkerError(worker)
    case Start(worker, _) => WorkerError(worker)
    case Acknowledge(worker, acknowledgementRef) =>
      if Blank(acknowledgementRef) then Some(AckRefRequired) else WorkerError(worker)
    case Fail(worker, _, _, _, _, _) => WorkerError(worker)
    case CloseByOperator(_, observation, _, readbackRef) =>
      if observation == Matched && !HasText(readbackRef) then Some(ReadbackRefRequired) else None
    case ClaimCheck(_, worker) => WorkerError(worker)
    case CompleteCheck(_, worker, observation, _, readbackRef, _) =>
      if observation == Matched && !HasText(readbackRef) then Some(ReadbackRefRequired) else WorkerError(worker)
    case _ => None
  }

  function WorkerError(worker: Text): Option<StoreError> {
    if ValidWorkerId(worker) then None else Some(WorkerIdInvalid)
  }

  /** The step on the row, once the input has been accepted. */
  function RowStep(d: Delivery, e: Event, now: int): Result<Delivery, StoreError> {
    match e
    case Reclaim => if Expired(d, now) then Ok(Reclaimed(d, now)) else Err(NotEligible)
    case Claim(worker) => if Due(d, now) then Ok(ClaimedBy(d, worker, now)) else Err(NotEligible)
    case Heartbeat(worker) =>
      if !OwnsLease(d, worker, now) then Err(LeaseNotOwned)
      else Ok(d.(message := d.message.(lease := Some(d.message.lease.value.(expiresAt := now + WORKER_LEASE_MS)))))
    case Start(worker, requestRef) =>
      if !OwnsLease(d, worker, now) then Err(LeaseNotOwned)
      else if d.message.attemptCount in d.attempts then Err(AttemptExists)
      else Ok(DispatchStart(d, requestRef))
    case Acknowledge(worker, acknowledgementRef) =>
      if !OwnsLease(d, worker, now) then Err(LeaseNotOwned)
      else if !DispatchStarted(d) then Err(DispatchStartMissing)
      else Ok(Acknowledged(d, acknowledgementRef, now))
    case Fail(worker, failure, errorCode, retryAfterMs, digestByte, appNow) =>
      if !OwnsLease(d, worker, now) then Err(LeaseNotOwned)
      else
        var decision := DecideRetry(d.message.attemptCount, failure, false, appNow, DeliveryPolicy(d),
                                    retryAfterMs, digestByte);
        if decision.Err? then Err(AttemptNotPositive) else Ok(Failed(d, decision.value, failure, errorCode, now))
    case CloseByOperator(_, _, _, _) => ClosedByOperator(d, e, now)
    case ReleaseCheck(attempt) =>
      if CheckLeaseExpired(d, attempt, now) then Ok(ReleasedCheck(d, attempt, now)) else Err(NotEligible)
    case ClaimCheck(attempt, worker) =>
      if CheckDue(d, attempt, now) then Ok(ClaimedCheck(d, attempt, worker, now)) else Err(NotEligible)
    case CompleteCheck(_, _, _, _, _, _) => CompletedCheck(d, e, now)
  }

  /** One atomic step at database time `now`, or the error that rolls it back. */
  function Apply(d: Delivery, e: Event, now: int): Result<Delivery, StoreError> {
    if InputError(e).Some? then Err(InputError(e).value) else RowStep(d, e, now)
  }
}
