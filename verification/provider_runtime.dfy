/** The batches of a provider worker as loops over claimed rows, run without interference from others; the
    interleavings are the subject of `ProviderWorkers`. */
module ProviderRuntime {
  import opened Wrappers
  import opened Texts
  import opened RetryPolicy
  import opened DeliveryRules
  import opened DeliverySafety
  import opened DeliveryRuns
  import opened DueSelection
  import opened DeliveryTables
  import opened DeliveryStore
  import opened ProviderWorkers

  /** What the row, the registry, the enablement and the adapter make of one message. */
  datatype Handling =
    | RowUnreadable(code: Text)
    | AdapterUnregistered(code: Text)
    | EffectDisabled(code: Text)
    | PrepareThrew(code: Text)
    | Prepared(requestRef: Text, raw: RawAnswer, code: Text)

  /** How a message will be handled, the random byte of its retry delay, and the clock readings around it. */
  datatype Occasion = Occasion(handling: Handling, digestByte: bv8, appNow: int, startedAt: int, settledAt: int)

  /** The failure recorded without a dispatch, if there is to be none. */
  function Refusal(h: Handling): Option<(FailureClass, Text)> {
    match h
    case RowUnreadable(code) => Some((ContractViolation, code))
    case AdapterUnregistered(code) => Some((Permanent, code))
    case EffectDisabled(code) => Some((PolicyBlocked, code))
    case PrepareThrew(code) => Some((ContractViolation, code))
    case Prepared(_, _, _) => None
  }

  /** What preparing and asking the adapter about one message came to. */
  datatype Inspection =
    | RowInvalid
    | Unavailable
    | Threw(versionMismatch: bool)
    | Answered(observation: Observation, observedVersion: Option<Text>, readbackRef: Option<Text>, tooLong: bool)

  datatype Visit = Visit(inspection: Inspection, at: int, later: int, appNow: int)

  datatype Verdict = Verdict(observation: Observation, observedVersion: Option<Text>, readbackRef: Option<Text>)

  /** The gate lets an adapter's observation through; otherwise it throws. */
  predicate PassesGate(i: Inspection, expected: Text) {
    && i.Answered? && !i.tooLong
    && (i.observation == Matched ==> HasText(i.readbackRef) && i.observedVersion == Some(expected))
  }

  /** What a check is completed as: an observation that passes the gate, or what its failure is reported as. */
  function VerdictOf(i: Inspection, expected: Text): Verdict {
    match i
    case RowInvalid => Verdict(VersionMismatch, None, None)
    case Unavailable => Verdict(SourceUnavailable, None, None)
    case Threw(versionMismatch) => Verdict(if versionMismatch then VersionMismatch else SourceUnavailable, None, None)
    case Answered(observation, observedVersion, readbackRef, tooLong) =>
      if observation == Matched && !HasText(readbackRef) then Verdict(SourceUnavailable, None, None)
      else if observation == Matched && observedVersion != Some(expected) then Verdict(VersionMismatch, None, None)
      else if tooLong then Verdict(SourceUnavailable, None, None)
      else Verdict(observation, observedVersion, readbackRef)
  }

  /** The gate on an observation, case by case: an adapter's own result goes through unless it claims a match without a
      reference or at another version, or holds overlong text; what does not go through reads as a version mismatch
      exactly for an unreadable row, a reported mismatch, or a match with a reference at another version, and as an
      unavailable source otherwise. */
  lemma VerdictExactly(i: Inspection, expected: Text)
    ensures var v := VerdictOf(i, expected);
            var matchless := i.Answered? && i.observation == Matched
                             && (i.readbackRef.None? || Blank(i.readbackRef.value));
            var elsewhere := i.Answered? && i.observation == Matched && i.observedVersion != Some(expected);
            var through := i.Answered? && !matchless && !elsewhere && !i.tooLong;
            && (through ==> v == Verdict(i.observation, i.observedVersion, i.readbackRef))
            && (!through ==>
                  && v.observedVersion.None? && v.readbackRef.None?
                  && (v.observation == VersionMismatch || v.observation == SourceUnavailable)
                  && (v.observation == VersionMismatch <==>
                        || i.RowInvalid? || (i.Threw? && i.versionMismatch) || (elsewhere && !matchless)))
            && (PassesGate(i, expected) <==> through)
  {
    hide Blank;
  }

  /** The failures recorded without asking the provider: a row or a request that breaks the contract, an adapter that is
      not registered, an effect that is not enabled. */
  lemma RefusalExactly(h: Handling)
    ensures match Refusal(h)
            case None => h.Prepared?
            case Some((failure, code)) =>
              && code == h.code
              && (failure == ContractViolation <==> h.RowUnreadable? || h.PrepareThrew?)
              && (failure == Permanent <==> h.AdapterUnregistered?)
              && (failure == PolicyBlocked <==> h.EffectDisabled?)
  {}

  /** Only `id` may have moved, and every message is still valid. */
  ghost predicate OnlyMoves(before: Db, after: Db, id: Text) {
    && AllValid(after) && AllForward(before, after) && after.Keys == before.Keys
    && forall m <- before :: m != id ==> after[m] == before[m]
  }

  lemma StepMovesOne(db: Db, id: Text, e: Event, now: int, missing: StoreError)
    requires AllValid(db) && Stepped(db, id, e, now, missing).Ok?
    ensures OnlyMoves(db, Stepped(db, id, e, now, missing).value, id)
  {
    hide Inv, Apply, Forward;
    SteppedForward(db, id, e, now, missing);
  }

  lemma MovesTwice(a: Db, b: Db, c: Db, id: Text)
    requires OnlyMoves(a, b, id) && OnlyMoves(b, c, id)
    ensures OnlyMoves(a, c, id)
  {
    hide Inv;
  }

  lemma Stays(db: Db, id: Text)
    requires AllValid(db)
    ensures OnlyMoves(db, db, id)
  {
    hide Inv;
  }

  // ---------------------------------------------------------------- one delivery, in terms of the rules

  /** The tables after one message of the batch, what is reported for it, and the attempt execute was called for. */
  datatype Delivered = Delivered(db: Db, result: Result<OutboxState, StoreError>, called: Option<nat>)

  /** A refusal is recorded as a failure; otherwise the start is recorded, then what the adapter's answer settles. */
  function Handled(db: Db, id: Text, worker: Text, o: Occasion): (h: Delivered)
    ensures id in db ==> h.db.Keys == db.Keys
  {
    match Refusal(o.handling)
    case Some((failure, code)) =>
      (match Stepped(db, id, Fail(worker, failure, code, None, o.digestByte, o.appNow), o.settledAt, LeaseNotOwned)
       case Ok(after) => Delivered(after, Ok(DeadLettered), None)
       case Err(error) => Delivered(db, Err(error), None))
    case None =>
      match Stepped(db, id, Start(worker, o.handling.requestRef), o.startedAt, LeaseNotOwned)
      case Err(error) => Delivered(db, Err(error), None)
      case Ok(started) =>
        var answer := CheckedAnswer(o.handling.raw);
        var e := SettlingEvent(worker, answer, o.handling.code, o.digestByte, o.appNow);
        var called := Some(db[id].message.attemptCount);
        match Stepped(started, id, e, o.settledAt, LeaseNotOwned)
        case Err(error) => Delivered(started, Err(error), called)
        case Ok(after) => Delivered(after, Ok(ReportedState(answer, after[id].message.state)), called)
  }

  lemma OwnerStates(db: Db, id: Text, e: Event, now: int)
    requires AllValid(db) && Stepped(db, id, e, now, LeaseNotOwned).Ok?
    ensures var state := Stepped(db, id, e, now, LeaseNotOwned).value[id].message.state;
            && (e.Acknowledge? ==> state == ProviderAcknowledged)
            && (e.Fail? && Unsafe(e.failure) ==> state == DeadLettered)
            && (e.Fail? && e.failure == AmbiguousAfterAck ==> state == ReconciliationRequired)
  {
    assert CountsValid(db[id]);
    hide Inv, Apply;
    StateAfterOwnerEvent(db[id], e, now);
  }

  lemma Started(d: Delivery, e: Event, now: int)
    requires e.Start? && Apply(d, e, now).Ok?
    ensures Dispatched(Apply(d, e, now).value, d.message.attemptCount) && !Dispatched(d, d.message.attemptCount)
  {}

  lemma StillDispatched(before: Db, after: Db, id: Text, n: nat)
    requires id in before && OnlyMoves(before, after, id) && Dispatched(before[id], n)
    ensures Dispatched(after[id], n)
  {
    hide Inv, Dispatched;
    assert Forward(before[id], after[id]);
  }

  /** One message of a valid table: only it moves, the reported state is the state on record, and execute was called
      only for a message that was not refused, after the durable start of an attempt that had none. */
  lemma HandledIsSound(db: Db, id: Text, worker: Text, o: Occasion)
    requires AllValid(db) && id in db
    ensures var h := Handled(db, id, worker, o);
            && OnlyMoves(db, h.db, id)
            && (h.result.Ok? ==> h.db[id].message.state == h.result.value)
            && (h.called.Some? ==>
                  && Refusal(o.handling).None? && h.called.value == db[id].message.attemptCount
                  && Dispatched(h.db[id], h.called.value) && !Dispatched(db[id], h.called.value))
  {
    hide Inv, Apply, OnlyMoves, AllValid, CheckedAnswer, Dispatched;
    Stays(db, id);
    var refusal := Refusal(o.handling);
    if refusal.Some? {
      var e := Fail(worker, refusal.value.0, refusal.value.1, None, o.digestByte, o.appNow);
      if Stepped(db, id, e, o.settledAt, LeaseNotOwned).Ok? {
        StepMovesOne(db, id, e, o.settledAt, LeaseNotOwned);
        OwnerStates(db, id, e, o.settledAt);
      }
      return;
    }
    var start := Start(worker, o.handling.requestRef);
    if Stepped(db, id, start, o.startedAt, LeaseNotOwned).Err? {
      return;
    }
    var started := Stepped(db, id, start, o.startedAt, LeaseNotOwned).value;
    StepMovesOne(db, id, start, o.startedAt, LeaseNotOwned);
    Started(db[id], start, o.startedAt);
    MovedIsValid(db, started, id);
    var e := SettlingEvent(worker, CheckedAnswer(o.handling.raw), o.handling.code, o.digestByte, o.appNow);
    if Stepped(started, id, e, o.settledAt, LeaseNotOwned).Ok? {
      var after := Stepped(started, id, e, o.settledAt, LeaseNotOwned).value;
      StepMovesOne(started, id, e, o.settledAt, LeaseNotOwned);
      OwnerStates(started, id, e, o.settledAt);
      MovesTwice(db, started, after, id);
      StillDispatched(started, after, id, db[id].message.attemptCount);
    }
  }

  lemma MovedIsValid(before: Db, after: Db, id: Text)
    requires OnlyMoves(before, after, id)
    ensures AllValid(after) && after.Keys == before.Keys && forall m <- before :: m != id ==> after[m] == before[m]
  {}

  /** The row as a claim at this time leaves it for its worker. */
  ghost predicate ClaimedFor(d: Delivery, worker: Text, claimAt: int) {
    && ValidWorkerId(worker) && d.message.state == Claimed && d.message.attemptCount !in d.attempts
    && d.message.lease == Some(Lease(worker, claimAt, claimAt + WORKER_LEASE_MS, claimAt + WORKER_REQUEST_DEADLINE_MS))
  }

  predicate InTime(o: Occasion, claimAt: int) {
    && o.settledAt < claimAt + WORKER_REQUEST_DEADLINE_MS
    && (Refusal(o.handling).None? ==> o.startedAt < claimAt + WORKER_REQUEST_DEADLINE_MS)
  }

  lemma OwnerEventExactly(d: Delivery, e: Event, now: int, worker: Text, claimAt: int)
    requires CountsValid(d) && d.message.state == Claimed && ValidWorkerId(worker)
    requires d.message.lease ==
               Some(Lease(worker, claimAt, claimAt + WORKER_LEASE_MS, claimAt + WORKER_REQUEST_DEADLINE_MS))
    requires || (e.Start? && e.worker == worker && d.message.attemptCount !in d.attempts)
             || (e.Acknowledge? && e.worker == worker && !Blank(e.acknowledgementRef) && DispatchStarted(d))
             || (e.Fail? && e.worker == worker)
    ensures Apply(d, e, now).Ok? <==> now < claimAt + WORKER_REQUEST_DEADLINE_MS
    ensures e.Start? && Apply(d, e, now).Ok? ==>
              var after := Apply(d, e, now).value;
              after.message == d.message && DispatchStarted(after)
  {
    hide ValidWorkerId, Blank, Power;
  }

  /** A freshly claimed message is reported exactly when its calls come within 45 seconds of the claim. */
  lemma HandledExactly(db: Db, id: Text, worker: Text, o: Occasion, claimAt: int)
    requires AllValid(db) && id in db && ClaimedFor(db[id], worker, claimAt)
    ensures Handled(db, id, worker, o).result.Ok? <==> InTime(o, claimAt)
  {
    hide Apply, CheckedAnswer, ValidWorkerId, DispatchStarted, IsFailureCode, BoundedText;
    assert CountsValid(db[id]);
    hide CountsValid, Inv;
    var refusal := Refusal(o.handling);
    if refusal.Some? {
      var e := Fail(worker, refusal.value.0, refusal.value.1, None, o.digestByte, o.appNow);
      OwnerEventExactly(db[id], e, o.settledAt, worker, claimAt);
      SteppedIsApplied(db, id, e, o.settledAt);
      return;
    }
    var start := Start(worker, o.handling.requestRef);
    OwnerEventExactly(db[id], start, o.startedAt, worker, claimAt);
    SteppedIsApplied(db, id, start, o.startedAt);
    if Stepped(db, id, start, o.startedAt, LeaseNotOwned).Ok? {
      var started := Stepped(db, id, start, o.startedAt, LeaseNotOwned).value;
      StepKeepsAllValid(db, id, start, o.startedAt, LeaseNotOwned);
      assert CountsValid(started[id]) by { assert Inv(started[id]); }
      var e := SettlingEvent(worker, CheckedAnswer(o.handling.raw), o.handling.code, o.digestByte, o.appNow);
      AcceptedHasText(o.handling.raw);
      OwnerEventExactly(started[id], e, o.settledAt, worker, claimAt);
      SteppedIsApplied(started, id, e, o.settledAt);
    }
  }

  lemma AcceptedHasText(raw: RawAnswer)
    ensures CheckedAnswer(raw).Accepted? ==> !Blank(CheckedAnswer(raw).acknowledgementRef)
  {}

  lemma SteppedIsApplied(db: Db, id: Text, e: Event, now: int)
    requires id in db
    ensures Stepped(db, id, e, now, LeaseNotOwned)
            == match Apply(db[id], e, now)
               case Ok(after) => Ok(db[id := after])
               case Err(error) => Err(error)
  {
    hide RowStep;
  }

  // ---------------------------------------------------------------- a whole delivery batch, in terms of the rules

  /** The tables after the batch, its reports and its calls; an error means that the rest was left alone. */
  datatype Batch = Batch(
    db: Db, outcomes: seq<Report>, calls: seq<(Text, nat)>, error: Option<StoreError>)

  function HandledAll(db: Db, claimed: seq<Text>, worker: Text, occasion: Text -> Occasion): Batch {
    if claimed == [] then Batch(db, [], [], None)
    else
      var id := claimed[|claimed| - 1];
      var before := HandledAll(db, claimed[..|claimed| - 1], worker, occasion);
      if before.error.Some? then before else WithHandled(before, id, Handled(before.db, id, worker, occasion(id)))
  }

  function WithHandled(b: Batch, id: Text, h: Delivered): Batch {
    var calls := if h.called.Some? then b.calls + [(id, h.called.value)] else b.calls;
    match h.result
    case Ok(state) => Batch(h.db, b.outcomes + [Report(id, state)], calls, None)
    case Err(error) => Batch(h.db, b.outcomes, calls, Some(error))
  }

  lemma NoneHandled(db: Db, worker: Text, occasion: Text -> Occasion)
    ensures HandledAll(db, [], worker, occasion) == Batch(db, [], [], None)
    ensures DeliveriesReported(db, [], []) && OneStartedCallEach(db, [], []) && Distinct<Text>([])
  {}

  lemma OneMoreHandled(db: Db, claimed: seq<Text>, i: nat, worker: Text, occasion: Text -> Occasion)
    requires i < |claimed| && HandledAll(db, claimed[..i], worker, occasion).error.None?
    ensures var before, id := HandledAll(db, claimed[..i], worker, occasion), claimed[i];
            HandledAll(db, claimed[..i + 1], worker, occasion)
            == WithHandled(before, id, Handled(before.db, id, worker, occasion(id)))
  {
    hide Handled, WithHandled;
    assert claimed[..i + 1][..i] == claimed[..i];
  }

  lemma {:induction false} ErrorEndsBatch(
    db: Db, claimed: seq<Text>, i: nat, worker: Text, occasion: Text -> Occasion)
    requires i <= |claimed| && HandledAll(db, claimed[..i], worker, occasion).error.Some?
    ensures HandledAll(db, claimed, worker, occasion) == HandledAll(db, claimed[..i], worker, occasion)
  {
    if i == |claimed| {
      assert claimed[..i] == claimed;
    } else {
      var front := claimed[..|claimed| - 1];
      assert front[..i] == claimed[..i];
      ErrorEndsBatch(db, front, i, worker, occasion);
    }
  }

  /** Each report names a claimed message, in order, and the state on record for it. */
  ghost predicate DeliveriesReported(rows: Db, claimed: seq<Text>, outcomes: seq<Report>) {
    && |outcomes| <= |claimed|
    && forall i :: 0 <= i < |outcomes| ==>
         && outcomes[i].id == claimed[i] && claimed[i] in rows
         && rows[claimed[i]].message.state == outcomes[i].state
  }

  /** Each call was for one of these messages, at most one for each, after a durable start of its attempt. */
  ghost predicate OneStartedCallEach(rows: Db, claimed: seq<Text>, calls: seq<(Text, nat)>) {
    && (forall c <- calls :: c.0 in claimed && c.0 in rows && Dispatched(rows[c.0], c.1))
    && (forall i, j :: 0 <= i < j < |calls| ==> calls[i].0 != calls[j].0)
  }

  /** Nothing but the first messages of the list has moved. */
  ghost predicate RestUntouched(before: Db, after: Db, moved: seq<Text>) {
    after.Keys == before.Keys && forall m <- before :: m !in moved ==> after[m] == before[m]
  }

  lemma ReportGrows(
    before: Db, after: Db, front: seq<Text>, id: Text, outcomes: seq<Report>, result: Result<OutboxState, StoreError>)
    requires id !in front && DeliveriesReported(before, front, outcomes) && |outcomes| == |front|
    requires RestUntouched(before, after, [id]) && id in before
    requires result.Ok? ==> after[id].message.state == result.value
    ensures DeliveriesReported(after, front + [id], outcomes)
    ensures result.Ok? ==> DeliveriesReported(after, front + [id], outcomes + [Report(id, result.value)])
  {
    assert forall i :: 0 <= i < |front| ==> front[i] in front && front[i] != id;
  }

  lemma CallsGrow(
    before: Db, after: Db, front: seq<Text>, id: Text, calls: seq<(Text, nat)>, called: Option<nat>)
    requires id !in front && OneStartedCallEach(before, front, calls)
    requires RestUntouched(before, after, [id]) && id in before
    requires called.Some? ==> Dispatched(after[id], called.value)
    ensures OneStartedCallEach(after, front + [id], if called.Some? then calls + [(id, called.value)] else calls)
  {
    assert forall i :: 0 <= i < |calls| ==> calls[i] in calls && calls[i].0 != id;
  }

  lemma UntouchedGrows(before: Db, middle: Db, after: Db, front: seq<Text>, id: Text)
    requires RestUntouched(before, middle, front) && RestUntouched(middle, after, [id])
    ensures RestUntouched(before, after, front + [id])
  {}

  lemma MovesLeaveRest(before: Db, after: Db, id: Text)
    requires OnlyMoves(before, after, id)
    ensures AllValid(after) && RestUntouched(before, after, [id])
  {}

  /** A batch over a valid table: it stays valid; the reports name the first messages in order with the states on
      record at the end; execute was called at most once for each message, after a durable start; without an error
      every message is reported, and after one everything from the next message on is untouched. */
  lemma {:induction false} BatchIsSound(db: Db, claimed: seq<Text>, worker: Text, occasion: Text -> Occasion)
    requires AllValid(db) && Distinct(claimed) && forall m <- claimed :: m in db
    ensures var b := HandledAll(db, claimed, worker, occasion);
            && AllValid(b.db) && DeliveriesReported(b.db, claimed, b.outcomes)
            && (b.error.None? <==> |b.outcomes| == |claimed|)
            && OneStartedCallEach(b.db, claimed, b.calls)
            && Touched(b) <= |claimed| && RestUntouched(db, b.db, claimed[..Touched(b)])
  {
    hide AllValid, OnlyMoves, Handled, Dispatched;
    if claimed == [] {
      return;
    }
    var last := |claimed| - 1;
    var id, front := claimed[last], claimed[..last];
    assert claimed == front + [id];
    BatchIsSound(db, front, worker, occasion);
    var before := HandledAll(db, front, worker, occasion);
    assert RestUntouched(db, before.db, front[..Touched(before)]);
    if before.error.Some? {
      assert claimed[..Touched(before)] == front[..Touched(before)];
      LongerList(before.db, front, id, before.outcomes, before.calls);
    } else {
      HandledIsSound(before.db, id, worker, occasion(id));
      var h := Handled(before.db, id, worker, occasion(id));
      MovesLeaveRest(before.db, h.db, id);
      hide DeliveriesReported, OneStartedCallEach, RestUntouched;
      ReportGrows(before.db, h.db, front, id, before.outcomes, h.result);
      CallsGrow(before.db, h.db, front, id, before.calls, h.called);
      assert front[..|front|] == front && claimed[..|claimed|] == claimed;
      UntouchedGrows(db, before.db, h.db, front, id);
    }
  }

  lemma LongerList(rows: Db, front: seq<Text>, id: Text, outcomes: seq<Report>, calls: seq<(Text, nat)>)
    requires DeliveriesReported(rows, front, outcomes) && OneStartedCallEach(rows, front, calls)
    ensures DeliveriesReported(rows, front + [id], outcomes) && OneStartedCallEach(rows, front + [id], calls)
  {}

  /** How many messages a batch has come to. */
  function Touched(b: Batch): nat { |b.outcomes| + if b.error.Some? then 1 else 0 }

  /** A batch over freshly claimed messages reports all of them exactly when all its calls come within 45 seconds of
      the claim. */
  lemma {:induction false} BatchExactly(
    db: Db, claimed: seq<Text>, worker: Text, occasion: Text -> Occasion, claimAt: int)
    requires AllValid(db) && Distinct(claimed)
    requires forall m <- claimed :: m in db && ClaimedFor(db[m], worker, claimAt)
    ensures HandledAll(db, claimed, worker, occasion).error.None? <==>
              forall m <- claimed :: InTime(occasion(m), claimAt)
  {
    hide AllValid, Handled, ClaimedFor, InTime, OneStartedCallEach, DeliveriesReported;
    if claimed == [] {
      return;
    }
    var last := |claimed| - 1;
    var id, front := claimed[last], claimed[..last];
    assert claimed == front + [id];
    BatchExactly(db, front, worker, occasion, claimAt);
    BatchIsSound(db, front, worker, occasion);
    var before := HandledAll(db, front, worker, occasion);
    if before.error.None? {
      assert id !in front[..Touched(before)];
      HandledExactly(before.db, id, worker, occasion(id), claimAt);
    }
  }

  /** Claiming leaves every claimed row fresh for its worker, in a valid table. */
  lemma FreshlyClaimed(
    db: Db, worker: Text, claimAt: int, switches: set<Switch>, limit: nat, claimed: seq<Text>)
    requires AllValid(db) && ValidWorkerId(worker)
    requires EarliestFirst(DueDeliveries(SweptDb(db, claimAt, {}), claimAt, {}, switches), limit, claimed)
    ensures var after := ClaimedDb(SweptDb(db, claimAt, {}), worker, claimAt, claimed);
            && AllValid(after) && Distinct(claimed)
            && forall m <- claimed :: m in after && ClaimedFor(after[m], worker, claimAt)
  {
    hide ValidWorkerId, Inv, Swept, ClaimedFor, Due;
    var swept := SweptDb(db, claimAt, {});
    assert forall m <- claimed :: m in DueDeliveries(swept, claimAt, {}, switches);
    ClaimsKeepAllValid(db, worker, claimAt, {}, switches, claimed);
    forall m <- claimed
      ensures m in db && ClaimedFor(ClaimedBy(swept[m], worker, claimAt), worker, claimAt)
    {
      SweptCounts(db[m], worker, claimAt);
    }
  }

  lemma SweptCounts(d: Delivery, worker: Text, now: int)
    requires Inv(d) && ValidWorkerId(worker)
    ensures ClaimedFor(ClaimedBy(Swept(d, now, false), worker, now), worker, now)
  {
    hide ValidWorkerId, ChecksValid, ConfirmationValid, SettlementValid;
  }

  // ---------------------------------------------------------------- reconciliations, in terms of the rules

  /** What the tables show of a message after a check of it was completed with a result. */
  ghost predicate ShowsResult(d: Delivery, n: nat, result: Observation) {
    && n == d.message.attemptCount && n in d.checkpoints && d.checkpoints[n].lease.None?
    && match result
       case Matched => d.message.state == SourceConfirmed && d.receipt.state == ReceiptConfirmed
       case NotFound => d.message.state == RetryScheduled || d.message.state == DeadLettered
       case VersionMismatch => d.message.state == Blocked
       case _ => d.message.state == Blocked || (AwaitingSource(d) && d.checkpoints[n].result == CheckPending)
  }

  /** The tables after one claimed check, and what is reported for it. */
  datatype Completed = Completed(db: Db, result: Result<Observation, StoreError>)

  function Completing(n: nat, worker: Text, verdict: Verdict, appNow: int): Event {
    CompleteCheck(n, worker, verdict.observation, verdict.observedVersion, verdict.readbackRef, appNow)
  }

  /** A check is completed with its verdict.  When the store refuses an observation that passed the gate, it is
      completed as unavailable instead. */
  function Checked(db: Db, id: Text, n: nat, worker: Text, v: Visit, expected: Text): (c: Completed)
    ensures id in db ==> c.db.Keys == db.Keys
  {
    var verdict := VerdictOf(v.inspection, expected);
    match Stepped(db, id, Completing(n, worker, verdict, v.appNow), v.at, ReconciliationLeaseNotOwned)
    case Ok(after) => Completed(after, Ok(verdict.observation))
    case Err(error) =>
      if !PassesGate(v.inspection, expected) then Completed(db, Err(error))
      else
        var instead := Verdict(SourceUnavailable, None, None);
        match Stepped(db, id, Completing(n, worker, instead, v.appNow), v.later, ReconciliationLeaseNotOwned)
        case Ok(after) => Completed(after, Ok(SourceUnavailable))
        case Err(second) => Completed(db, Err(second))
  }

  lemma CompletedShows(db: Db, id: Text, e: Event, now: int)
    requires AllValid(db) && e.CompleteCheck? && Stepped(db, id, e, now, ReconciliationLeaseNotOwned).Ok?
    ensures ShowsResult(Stepped(db, id, e, now, ReconciliationLeaseNotOwned).value[id], e.attempt, e.observation)
  {
    var d := db[id];
    assert Inv(d) && OwnsCheck(d, e.attempt, e.worker, now);
    assert e.attempt == d.message.attemptCount && AwaitingSource(d);
    AnswerShows(d, e, now);
  }

  lemma AnswerShows(d: Delivery, e: Event, now: int)
    requires e.CompleteCheck? && Apply(d, e, now).Ok?
    requires e.attempt == d.message.attemptCount && AwaitingSource(d)
    ensures ShowsResult(Apply(d, e, now).value, e.attempt, e.observation)
  {
    hide ValidWorkerId, Blank, Power;
  }

  /** One check of a valid table: only its message moves, and what is reported shows in the tables. */
  lemma CheckedIsSound(db: Db, id: Text, n: nat, worker: Text, v: Visit, expected: Text)
    requires AllValid(db) && id in db
    ensures var c := Checked(db, id, n, worker, v, expected);
            && OnlyMoves(db, c.db, id)
            && (c.result.Ok? ==> ShowsResult(c.db[id], n, c.result.value))
  {
    hide Inv, Apply, OnlyMoves, AllValid, ShowsResult, VerdictOf, PassesGate;
    Stays(db, id);
    var e := Completing(n, worker, VerdictOf(v.inspection, expected), v.appNow);
    if Stepped(db, id, e, v.at, ReconciliationLeaseNotOwned).Ok? {
      StepMovesOne(db, id, e, v.at, ReconciliationLeaseNotOwned);
      CompletedShows(db, id, e, v.at);
    }
    var again := Completing(n, worker, Verdict(SourceUnavailable, None, None), v.appNow);
    if Stepped(db, id, again, v.later, ReconciliationLeaseNotOwned).Ok? {
      StepMovesOne(db, id, again, v.later, ReconciliationLeaseNotOwned);
      CompletedShows(db, id, again, v.later);
    }
  }

  /** A result is the verdict on the adapter's answer, and `MATCHED` only for a match with a reference and the
      committed version. */
  predicate VerdictReported(i: Inspection, expected: Text, result: Observation) {
    && result == VerdictOf(i, expected).observation
    && (result == Matched ==> && i.Answered? && i.observation == Matched
                              && HasText(i.readbackRef) && i.observedVersion == Some(expected))
  }

  /** Against the version its message committed, a check is reported exactly when its lease still holds, and always
      as its verdict: by the gate the store has no other reason to refuse, so the second completion never helps. */
  lemma CheckedExactly(db: Db, id: Text, n: nat, worker: Text, v: Visit)
    requires AllValid(db) && id in db && ValidWorkerId(worker) && v.at <= v.later
    ensures var expected := db[id].receipt.committedVersion;
            var result := Checked(db, id, n, worker, v, expected).result;
            && (result.Ok? <==> OwnsCheck(db[id], n, worker, v.at))
            && (result.Ok? ==> VerdictReported(v.inspection, expected, result.value))
  {
    hide Apply, ValidWorkerId, Blank, OwnsCheck;
    var expected := db[id].receipt.committedVersion;
    var verdict := VerdictOf(v.inspection, expected);
    assert Inv(db[id]);
    hide Inv, AllValid;
    CompletionExactly(db[id], Completing(n, worker, verdict, v.appNow), v.at);
    CompletionExactly(db[id], Completing(n, worker, Verdict(SourceUnavailable, None, None), v.appNow), v.later);
    if OwnsCheck(db[id], n, worker, v.later) {
      OwnedEarlier(db[id], n, worker, v.at, v.later);
    }
  }

  lemma CompletionExactly(d: Delivery, e: Event, now: int)
    requires Inv(d) && e.CompleteCheck? && ValidWorkerId(e.worker)
    requires e.observation == Matched ==>
               HasText(e.readbackRef) && e.observedVersion == Some(d.receipt.committedVersion)
    ensures Apply(d, e, now).Ok? <==> OwnsCheck(d, e.attempt, e.worker, now)
    ensures InputError(e).None?
  {
    hide AfterObservation, RecordedAnswer, ValidWorkerId, Blank;
  }

  lemma OwnedEarlier(d: Delivery, n: nat, worker: Text, at: int, later: int)
    requires at <= later && OwnsCheck(d, n, worker, later)
    ensures OwnsCheck(d, n, worker, at)
  {}

  // ---------------------------------------------------------------- a whole reconciliation batch

  datatype CheckBatch = CheckBatch(db: Db, outcomes: seq<Observation>, error: Option<StoreError>)

  /** The version the message committed, as the claim returned it with the row. */
  function Committed(db: Db, id: Text): Text { if id in db then db[id].receipt.committedVersion else [] }

  function CheckedAll(db: Db, claimed: seq<(Text, nat)>, worker: Text, visit: Text -> Visit): CheckBatch {
    if claimed == [] then CheckBatch(db, [], None)
    else
      var (id, n) := claimed[|claimed| - 1];
      var before := CheckedAll(db, claimed[..|claimed| - 1], worker, visit);
      if before.error.Some? then before
      else WithChecked(before, Checked(before.db, id, n, worker, visit(id), Committed(db, id)))
  }

  function WithChecked(b: CheckBatch, c: Completed): CheckBatch {
    match c.result
    case Ok(observation) => CheckBatch(c.db, b.outcomes + [observation], None)
    case Err(error) => CheckBatch(c.db, b.outcomes, Some(error))
  }

  lemma NoneChecked(db: Db, worker: Text, visit: Text -> Visit)
    ensures CheckedAll(db, [], worker, visit) == CheckBatch(db, [], None) && ChecksReported(db, [], [])
  {}

  lemma OneMoreChecked(db: Db, claimed: seq<(Text, nat)>, i: nat, worker: Text, visit: Text -> Visit)
    requires i < |claimed| && CheckedAll(db, claimed[..i], worker, visit).error.None?
    ensures var before, (id, n) := CheckedAll(db, claimed[..i], worker, visit), claimed[i];
            CheckedAll(db, claimed[..i + 1], worker, visit)
            == WithChecked(before, Checked(before.db, id, n, worker, visit(id), Committed(db, id)))
  {
    hide Checked, WithChecked;
    assert claimed[..i + 1][..i] == claimed[..i];
  }

  lemma {:induction false} ErrorEndsChecks(
    db: Db, claimed: seq<(Text, nat)>, i: nat, worker: Text, visit: Text -> Visit)
    requires i <= |claimed| && CheckedAll(db, claimed[..i], worker, visit).error.Some?
    ensures CheckedAll(db, claimed, worker, visit) == CheckedAll(db, claimed[..i], worker, visit)
  {
    hide Checked;
    if i == |claimed| {
      assert claimed[..i] == claimed;
    } else {
      var front := claimed[..|claimed| - 1];
      assert front[..i] == claimed[..i];
      ErrorEndsChecks(db, front, i, worker, visit);
    }
  }

  ghost predicate OneCheckEach(claimed: seq<(Text, nat)>) {
    forall i, j :: 0 <= i < j < |claimed| ==> claimed[i].0 != claimed[j].0
  }

  /** Each report is of a claimed check, in order, and what it says shows in the tables. */
  ghost predicate ChecksReported(rows: Db, claimed: seq<(Text, nat)>, outcomes: seq<Observation>) {
    && |outcomes| <= |claimed|
    && forall i :: 0 <= i < |outcomes| ==>
         claimed[i].0 in rows && ShowsResult(rows[claimed[i].0], claimed[i].1, outcomes[i])
  }

  lemma CheckReportGrows(
    before: Db, after: Db, front: seq<(Text, nat)>, c: (Text, nat), outcomes: seq<Observation>,
    result: Result<Observation, StoreError>)
    requires OneCheckEach(front + [c]) && ChecksReported(before, front, outcomes) && |outcomes| == |front|
    requires c.0 in before && RestUntouched(before, after, [c.0])
    requires result.Ok? ==> ShowsResult(after[c.0], c.1, result.value)
    ensures ChecksReported(after, front + [c], outcomes)
    ensures result.Ok? ==> ChecksReported(after, front + [c], outcomes + [result.value])
  {
    hide ShowsResult;
    assert (front + [c])[|front|] == c;
    assert forall i :: 0 <= i < |front| ==> (front + [c])[i] == front[i] && front[i].0 != c.0;
  }

  /** No message has moved unless a check of it is in the list. */
  ghost predicate OthersUntouched(before: Db, after: Db, claimed: seq<(Text, nat)>) {
    after.Keys == before.Keys && forall m <- before :: (forall c <- claimed :: c.0 != m) ==> after[m] == before[m]
  }

  lemma OthersStay(before: Db, middle: Db, after: Db, front: seq<(Text, nat)>, c: (Text, nat))
    requires OthersUntouched(before, middle, front) && RestUntouched(middle, after, [c.0])
    ensures OthersUntouched(before, after, front + [c])
  {
    assert forall x <- front :: x in front + [c];
    assert c in front + [c];
  }

  lemma OthersNamed(before: Db, after: Db, front: seq<(Text, nat)>, c: (Text, nat))
    requires OthersUntouched(before, after, front) && OneCheckEach(front + [c]) && c.0 in before
    ensures after[c.0] == before[c.0]
  {
    assert (front + [c])[|front|] == c;
    assert forall i :: 0 <= i < |front| ==> (front + [c])[i] == front[i] && front[i].0 != c.0;
  }

  lemma LongerChecks(before: Db, after: Db, front: seq<(Text, nat)>, c: (Text, nat), outcomes: seq<Observation>)
    requires ChecksReported(after, front, outcomes) && OthersUntouched(before, after, front)
    ensures ChecksReported(after, front + [c], outcomes) && OthersUntouched(before, after, front + [c])
  {
    hide ShowsResult;
    assert forall x <- front :: x in front + [c];
  }

  lemma FrontChecks(claimed: seq<(Text, nat)>)
    requires claimed != [] && OneCheckEach(claimed)
    ensures OneCheckEach(claimed[..|claimed| - 1])
    ensures forall c <- claimed[..|claimed| - 1] :: c in claimed
    ensures claimed == claimed[..|claimed| - 1] + [claimed[|claimed| - 1]]
    ensures claimed[|claimed| - 1] in claimed
  {}

  /** A batch of checks over a valid table: it stays valid, every reported result shows in the tables at the end, and
      without an error every check is reported; a message none of whose checks was claimed has not moved. */
  lemma {:induction false} ChecksAreSound(db: Db, claimed: seq<(Text, nat)>, worker: Text, visit: Text -> Visit)
    requires AllValid(db) && OneCheckEach(claimed) && forall c <- claimed :: c.0 in db
    ensures var b := CheckedAll(db, claimed, worker, visit);
            && AllValid(b.db) && ChecksReported(b.db, claimed, b.outcomes)
            && (b.error.None? <==> |b.outcomes| == |claimed|)
            && OthersUntouched(db, b.db, claimed)
  {
    hide AllValid, OnlyMoves, Checked, ShowsResult;
    if claimed == [] {
      return;
    }
    var last := |claimed| - 1;
    var c, front := claimed[last], claimed[..last];
    FrontChecks(claimed);
    ChecksAreSound(db, front, worker, visit);
    var before := CheckedAll(db, front, worker, visit);
    LongerChecks(db, before.db, front, c, before.outcomes);
    if before.error.None? {
      var v, expected := visit(c.0), Committed(db, c.0);
      assert c.0 in before.db;
      hide ChecksReported, OthersUntouched, OneCheckEach, RestUntouched, Committed;
      CheckedIsSound(before.db, c.0, c.1, worker, v, expected);
      var after := Checked(before.db, c.0, c.1, worker, v, expected);
      MovesLeaveRest(before.db, after.db, c.0);
      CheckReportGrows(before.db, after.db, front, c, before.outcomes, after.result);
      OthersStay(db, before.db, after.db, front, c);
    }
  }

  /** The check as a claim at this time leaves it for its worker. */
  predicate TakenFor(d: Delivery, n: nat, worker: Text, claimAt: int) {
    && ValidWorkerId(worker) && n in d.checkpoints && d.checkpoints[n].result == CheckPending
    && d.checkpoints[n].lease == Some(CheckLease(worker, claimAt, claimAt + WORKER_LEASE_MS))
  }

  /** A batch over freshly claimed checks reports all of them exactly when all are completed before their leases end,
      each with the verdict on what its adapter answered; `MATCHED` only for a match with a reference and the
      committed version. */
  lemma {:induction false} ChecksExactly(
    db: Db, claimed: seq<(Text, nat)>, worker: Text, visit: Text -> Visit, claimAt: int)
    requires AllValid(db) && OneCheckEach(claimed)
    requires forall c <- claimed ::
               c.0 in db && TakenFor(db[c.0], c.1, worker, claimAt) && visit(c.0).at <= visit(c.0).later
    ensures var b := CheckedAll(db, claimed, worker, visit);
            && (b.error.None? <==> forall c <- claimed :: visit(c.0).at < claimAt + WORKER_LEASE_MS)
            && VerdictsReported(db, claimed, visit, b.outcomes)
  {
    hide AllValid, Checked, TakenFor, ChecksReported, VerdictReported;
    if claimed == [] {
      return;
    }
    var last := |claimed| - 1;
    var c, front := claimed[last], claimed[..last];
    FrontChecks(claimed);
    hide OneCheckEach;
    ChecksExactly(db, front, worker, visit, claimAt);
    ChecksAreSound(db, front, worker, visit);
    var before := CheckedAll(db, front, worker, visit);
    hide VerdictsReported;
    if before.error.None? {
      OthersNamed(db, before.db, front, c);
      hide OthersUntouched;
      TakenIsOwned(db[c.0], c.1, worker, claimAt, visit(c.0).at);
      hide OwnsCheck, ValidWorkerId;
      CheckedExactly(before.db, c.0, c.1, worker, visit(c.0));
      var done := Checked(before.db, c.0, c.1, worker, visit(c.0), Committed(db, c.0));
      VerdictsGrow(db, front, c, visit, before.outcomes, done.result);
    } else {
      VerdictsGrow(db, front, c, visit, before.outcomes, Err(before.error.value));
    }
  }

  /** What is reported for each check is the verdict on its adapter's answer. */
  ghost predicate VerdictsReported(
    db: Db, claimed: seq<(Text, nat)>, visit: Text -> Visit, outcomes: seq<Observation>)
  {
    && |outcomes| <= |claimed|
    && forall i :: 0 <= i < |outcomes| ==>
         VerdictReported(visit(claimed[i].0).inspection, Committed(db, claimed[i].0), outcomes[i])
  }

  lemma VerdictsGrow(
    db: Db, front: seq<(Text, nat)>, c: (Text, nat), visit: Text -> Visit, outcomes: seq<Observation>,
    result: Result<Observation, StoreError>)
    requires VerdictsReported(db, front, visit, outcomes)
    requires result.Ok? ==>
               && |outcomes| == |front|
               && VerdictReported(visit(c.0).inspection, Committed(db, c.0), result.value)
    ensures VerdictsReported(db, front + [c], visit, outcomes)
    ensures result.Ok? ==> VerdictsReported(db, front + [c], visit, outcomes + [result.value])
  {
    hide VerdictReported, Committed;
  }

  lemma TakenIsOwned(d: Delivery, n: nat, worker: Text, claimAt: int, now: int)
    requires TakenFor(d, n, worker, claimAt)
    ensures ValidWorkerId(worker) && (OwnsCheck(d, n, worker, now) <==> now < claimAt + WORKER_LEASE_MS)
  {}

  /** Claiming takes one check of each of its messages and leaves it leased to the worker, in a valid table. */
  lemma ChecksClaimed(before: Db, worker: Text, now: int, limit: nat, claimed: seq<(Text, nat)>)
    requires AllValid(before) && ValidWorkerId(worker)
    requires EarliestFirst(DueChecks(CheckSweptDb(before, now), now, {}), limit, claimed)
    ensures var after := ChecksTakenDb(CheckSweptDb(before, now), worker, now, claimed);
            && AllValid(after) && OneCheckEach(claimed)
            && forall c <- claimed :: c.0 in after && TakenFor(after[c.0], c.1, worker, now)
  {
    hide Inv, CheckSwept, ValidWorkerId;
    assert forall m, n :: (m, n) in claimed ==> (m, n) in DueChecks(CheckSweptDb(before, now), now, {});
    CheckClaimsForward(before, worker, now, {}, claimed);
    forall i, j | 0 <= i < j < |claimed| ensures claimed[i].0 != claimed[j].0 {
      if claimed[i].0 == claimed[j].0 {
        OneDueCheck(before, now, claimed[i], claimed[j]);
      }
    }
  }

  /** A valid message has at most one check that can be due. */
  lemma OneDueCheck(db: Db, now: int, a: (Text, nat), b: (Text, nat))
    requires var due := DueChecks(CheckSweptDb(db, now), now, {}); AllValid(db) && a in due && b in due
    requires a.0 == b.0
    ensures a == b
  {
    var d := db[a.0];
    assert Inv(d);
  }

  class ProviderWorkerRuntime {
    const store: WorkflowDeliveryStore

    constructor (store: WorkflowDeliveryStore)
      ensures this.store == store
    {
      this.store := store;
    }

    /** One message of the batch: refused, or started, executed and settled. */
    method Deliver(id: Text, worker: Text, o: Occasion)
      returns (r: Result<OutboxState, StoreError>, called: Option<nat>)
      requires id in store.rows && AllValid(store.rows)
      modifies store`rows
      ensures Delivered(store.rows, r, called) == Handled(old(store.rows), id, worker, o)
      ensures OnlyMoves(old(store.rows), store.rows, id)
      ensures AllValid(store.rows) && store.rows.Keys == old(store.rows).Keys
      ensures r.Ok? ==> store.rows[id].message.state == r.value
      ensures called.Some? ==> Refusal(o.handling).None? && Dispatched(store.rows[id], called.value)
    {
      hide Inv, Apply, OnlyMoves, AllValid, CheckedAnswer, Dispatched;
      HandledIsSound(store.rows, id, worker, o);
      MovedIsValid(store.rows, Handled(store.rows, id, worker, o).db, id);
      var refusal := Refusal(o.handling);
      if refusal.Some? {
        var recorded := store.RecordOutboxFailure(
          id, refusal.value.0, refusal.value.1, None, o.digestByte, worker, o.appNow, o.settledAt);
        r := if recorded.Ok? then Ok(DeadLettered) else recorded;
        return r, None;
      }
      var started := store.RecordDispatchStarted(id, o.handling.requestRef, worker, o.startedAt);
      if started.Err? {
        return Err(started.error), None;
      }
      called := Some(started.value);
      var answer := CheckedAnswer(o.handling.raw);
      match answer {
        case Accepted(acknowledgementRef) =>
          var error := store.RecordProviderAcknowledgement(id, acknowledgementRef, worker, o.settledAt);
          r := if error.Some? then Err(error.value) else Ok(ProviderAcknowledged);
        case Declined(code, failure, retryAfterMs) =>
          r := store.RecordOutboxFailure(
            id, failure, code, retryAfterMs, o.digestByte, worker, o.appNow, o.settledAt);
        case Unusable =>
          r := store.RecordOutboxFailure(
            id, AmbiguousAfterAck, o.handling.code, None, o.digestByte, worker, o.appNow, o.settledAt);
          if r.Ok? {
            r := Ok(ReconciliationRequired);
          }
      }
    }

    /** The claimed messages in order, until a call is refused. */
    method HandleInOrder(claimed: seq<Text>, worker: Text, occasion: Text -> Occasion)
      returns (outcomes: seq<Report>, calls: seq<(Text, nat)>, error: Option<StoreError>)
      requires AllValid(store.rows) && forall m <- claimed :: m in store.rows
      modifies store`rows
      ensures Batch(store.rows, outcomes, calls, error) == HandledAll(old(store.rows), claimed, worker, occasion)
    {
      hide AllValid, OnlyMoves, Handled, HandledAll, Dispatched;
      ghost var rows := store.rows;
      outcomes, calls, error := [], [], None;
      NoneHandled(rows, worker, occasion);
      for i := 0 to |claimed|
        invariant AllValid(store.rows) && store.rows.Keys == rows.Keys
        invariant Batch(store.rows, outcomes, calls, None) == HandledAll(rows, claimed[..i], worker, occasion)
      {
        var id := claimed[i];
        OneMoreHandled(rows, claimed, i, worker, occasion);
        assert id in claimed;
        var result, called := Deliver(id, worker, occasion(id));
        if called.Some? {
          calls := calls + [(id, called.value)];
        }
        if result.Err? {
          error := Some(result.error);
          ErrorEndsBatch(rows, claimed, i + 1, worker, occasion);
          return;
        }
        outcomes := outcomes + [Report(id, result.value)];
      }
      assert claimed[..|claimed|] == claimed;
    }

    /** The batch claims the earliest due messages and handles them in order.  Every claimed message is reported
        exactly when all calls come within 45 seconds of the claim; otherwise the first refused call ends the batch.
        Each reported outcome is the state on record at the end, for the claimed messages in their order; and the
        adapter's execute was called at most once for each of them, always after a durable start of that attempt. */
    method RunDeliveryBatch(limit: Option<int>, worker: Text, claimAt: int, occasion: Text -> Occasion)
      returns (claimed: seq<Text>, outcomes: seq<Report>, calls: seq<(Text, nat)>, error: Option<StoreError>)
      requires AllValid(store.rows)
      modifies store`rows
      ensures !ValidWorkerId(worker) ==>
                && (claimed, outcomes, calls, error) == ([], [], [], Some(WorkerIdInvalid))
                && store.rows == old(store.rows)
      ensures ValidWorkerId(worker) ==>
                var swept := SweptDb(old(store.rows), claimAt, {});
                && EarliestFirst(DueDeliveries(swept, claimAt, {}, store.switches), BoundedLimit(limit), claimed)
                && Batch(store.rows, outcomes, calls, error)
                   == HandledAll(ClaimedDb(swept, worker, claimAt, claimed), claimed, worker, occasion)
                && (error.None? <==> forall m <- claimed :: InTime(occasion(m), claimAt))
      ensures AllValid(store.rows) && Distinct(claimed)
      ensures DeliveriesReported(store.rows, claimed, outcomes) && (error.None? ==> |outcomes| == |claimed|)
      ensures OneStartedCallEach(store.rows, claimed, calls)
    {
      hide AllValid, HandledAll, InTime, ClaimedFor, ValidWorkerId, DeliveriesReported, OneStartedCallEach;
      hide RestUntouched, Touched, SweptDb, DueDeliveries, EarliestFirst, ClaimedDb, Distinct;
      NoneHandled(store.rows, worker, occasion);
      var r := store.ClaimDueOutbox(limit, worker, claimAt, {});
      if r.Err? {
        return [], [], [], Some(r.error);
      }
      claimed := r.value;
      FreshlyClaimed(old(store.rows), worker, claimAt, store.switches, BoundedLimit(limit), claimed);
      BatchIsSound(store.rows, claimed, worker, occasion);
      BatchExactly(store.rows, claimed, worker, occasion, claimAt);
      outcomes, calls, error := HandleInOrder(claimed, worker, occasion);
    }

    // -------------------------------------------------------------- reconciliations

    /** Completes one claimed check.  When the store refuses an observation that passed the gate, the check is
        completed as unavailable instead. */
    method Complete(id: Text, n: nat, worker: Text, v: Visit, expected: Text)
      returns (r: Result<Observation, StoreError>)
      requires id in store.rows && AllValid(store.rows)
      modifies store`rows
      ensures Completed(store.rows, r) == Checked(old(store.rows), id, n, worker, v, expected)
      ensures OnlyMoves(old(store.rows), store.rows, id)
      ensures AllValid(store.rows) && store.rows.Keys == old(store.rows).Keys
      ensures r.Ok? ==> ShowsResult(store.rows[id], n, r.value)
      ensures r.Ok? ==> || r.value == VerdictOf(v.inspection, expected).observation
                        || (PassesGate(v.inspection, expected) && r.value == SourceUnavailable)
    {
      hide Inv, Apply, OnlyMoves, AllValid, ShowsResult, VerdictOf, PassesGate;
      CheckedIsSound(store.rows, id, n, worker, v, expected);
      MovedIsValid(store.rows, Checked(store.rows, id, n, worker, v, expected).db, id);
      var verdict := VerdictOf(v.inspection, expected);
      var done := store.CompleteClaimedReconciliation(
        id, n, verdict.observation, verdict.observedVersion, verdict.readbackRef, worker, v.appNow, v.at);
      if done.Ok? {
        return Ok(verdict.observation);
      }
      if !PassesGate(v.inspection, expected) {
        return Err(done.error);
      }
      done := store.CompleteClaimedReconciliation(id, n, SourceUnavailable, None, None, worker, v.appNow, v.later);
      if done.Ok? {
        return Ok(SourceUnavailable);
      }
      return Err(done.error);
    }

    /** The claimed checks in order, until one is refused for good. */
    method CompleteInOrder(claimed: seq<(Text, nat)>, worker: Text, visit: Text -> Visit)
      returns (outcomes: seq<Observation>, error: Option<StoreError>)
      requires AllValid(store.rows) && forall c <- claimed :: c.0 in store.rows
      modifies store`rows
      ensures CheckBatch(store.rows, outcomes, error) == CheckedAll(old(store.rows), claimed, worker, visit)
    {
      hide AllValid, OnlyMoves, Checked, CheckedAll, Committed, ShowsResult, VerdictOf, PassesGate;
      var rows := store.rows;
      outcomes, error := [], None;
      NoneChecked(rows, worker, visit);
      for i := 0 to |claimed|
        invariant AllValid(store.rows) && store.rows.Keys == rows.Keys
        invariant CheckBatch(store.rows, outcomes, None) == CheckedAll(rows, claimed[..i], worker, visit)
      {
        var id, n := claimed[i].0, claimed[i].1;
        OneMoreChecked(rows, claimed, i, worker, visit);
        assert claimed[i] in claimed;
        var done := Complete(id, n, worker, visit(id), Committed(rows, id));
        if done.Err? {
          error := Some(done.error);
          ErrorEndsChecks(rows, claimed, i + 1, worker, visit);
          return;
        }
        outcomes := outcomes + [done.value];
      }
      assert claimed[..|claimed|] == claimed;
    }

    /** The reconciliation batch claims the earliest due checks and completes them in order.  Every claimed check is
        reported, with the verdict on its adapter's answer, exactly when all are completed before their leases end;
        and every reported result is what the tables show at the end. */
    method RunReconciliationBatch(limit: Option<int>, worker: Text, claimAt: int, visit: Text -> Visit)
      returns (claimed: seq<(Text, nat)>, outcomes: seq<Observation>, error: Option<StoreError>)
      requires AllValid(store.rows)
      modifies store`rows
      ensures !ValidWorkerId(worker) ==>
                (claimed, outcomes, error) == ([], [], Some(WorkerIdInvalid)) && store.rows == old(store.rows)
      ensures ValidWorkerId(worker) ==>
                var swept := CheckSweptDb(old(store.rows), claimAt);
                var taken := ChecksTakenDb(swept, worker, claimAt, claimed);
                && EarliestFirst(DueChecks(swept, claimAt, {}), BoundedLimit(limit), claimed)
                && CheckBatch(store.rows, outcomes, error) == CheckedAll(taken, claimed, worker, visit)
                && ((forall c <- claimed :: visit(c.0).at <= visit(c.0).later) ==>
                      && (error.None? <==> forall c <- claimed :: visit(c.0).at < claimAt + WORKER_LEASE_MS)
                      && VerdictsReported(taken, claimed, visit, outcomes))
      ensures AllValid(store.rows)
      ensures ChecksReported(store.rows, claimed, outcomes) && (error.None? ==> |outcomes| == |claimed|)
    {
      hide AllValid, CheckedAll, TakenFor, ValidWorkerId, VerdictsReported, ChecksReported, OneCheckEach;
      hide OthersUntouched, CheckSweptDb, DueChecks, EarliestFirst, ChecksTakenDb;
      NoneChecked(store.rows, worker, visit);
      var r := store.ClaimDueReconciliations(limit, worker, claimAt, {});
      if r.Err? {
        return [], [], Some(r.error);
      }
      claimed := r.value;
      ChecksClaimed(old(store.rows), worker, claimAt, BoundedLimit(limit), claimed);
      ChecksAreSound(store.rows, claimed, worker, visit);
      if forall c <- claimed :: visit(c.0).at <= visit(c.0).later {
        ChecksExactly(store.rows, claimed, worker, visit, claimAt);
      }
      outcomes, error := CompleteInOrder(claimed, worker, visit);
    }
  }
}
