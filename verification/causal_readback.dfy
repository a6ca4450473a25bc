/** How far a command has got, as its readers see it: built from the receipt, its outbox row and the latest
    reconciliation checkpoint. */
module CausalReadback {
  import opened Wrappers
  import opened Texts
  import opened DeliveryRules
  import opened DeliverySafety
  import opened DeliveryRuns

  datatype Finality = DomainCommitted | Acknowledged | Reconciling | FinallyConfirmed

  datatype Freshness = Fresh | Stale | NotApplicable | Unknown

  datatype ReadbackError = FreshnessPolicyInvalid

  datatype RowState = RowReconciling | RowAcknowledged | RowOther

  /** The joined row; an empty string counts as no value. */
  datatype Row = Row(
    confirmedAt: Option<int>, readbackRef: Option<Text>, acknowledgedAt: Option<int>, checkedAt: Option<int>,
    committedAt: Option<int>, checkResult: Option<CheckResult>, receiptState: RowState, outboxState: RowState)

  datatype Readback = Readback(finality: Finality, freshness: Freshness, businessFinal: bool)

  function FirstOf<T>(a: Option<T>, b: Option<T>): Option<T> { if a.Some? then a else b }

  predicate HasConfirmation(row: Row) {
    row.confirmedAt.Some? && row.readbackRef.Some? && row.readbackRef.value != []
  }

  function FreshnessAt(observedAt: Option<int>, now: int, policyMs: Option<int>): Result<Freshness, ReadbackError> {
    if observedAt.None? then Ok(Unknown)
    else if policyMs.None? then Ok(NotApplicable)
    else if policyMs.value <= 0 then Err(FreshnessPolicyInvalid)
    else Ok(if observedAt.value + policyMs.value > now then Fresh else Stale)
  }

  function BuildReadback(row: Row, now: int, policyMs: Option<int>): Result<Readback, ReadbackError> {
    var latest := if HasConfirmation(row) then row.confirmedAt
                  else FirstOf(row.checkedAt, FirstOf(row.acknowledgedAt, row.committedAt));
    match FreshnessAt(latest, now, if HasConfirmation(row) then policyMs else None)
    case Err(e) => Err(e)
    case Ok(freshness) =>
      var finality :=
        if HasConfirmation(row) && freshness == Fresh then FinallyConfirmed
        else if HasConfirmation(row) then Reconciling
        else if row.checkResult.Some? || row.receiptState == RowReconciling || row.outboxState == RowReconciling
        then Reconciling
        else if row.acknowledgedAt.Some? || row.receiptState == RowAcknowledged || row.outboxState == RowAcknowledged
        then Acknowledged
        else DomainCommitted;
      Ok(Readback(finality, freshness, finality == FinallyConfirmed))
  }

  /** Business finality is exactly a confirmation with evidence, inside its freshness window. */
  lemma FinalExactly(row: Row, now: int, policyMs: Option<int>)
    ensures BuildReadback(row, now, policyMs).Ok? <==>
              !(HasConfirmation(row) && policyMs.Some? && policyMs.value <= 0)
    ensures BuildReadback(row, now, policyMs).Ok? ==>
              (BuildReadback(row, now, policyMs).value.businessFinal <==>
                 HasConfirmation(row) && policyMs.Some? && now < row.confirmedAt.value + policyMs.value)
  {}

  /** What readers are told, and when: a confirmation with a reference reads as confirmed inside its window and as
      reconciling outside it; otherwise any check, or a row that is being reconciled, reads as reconciling; otherwise an
      acknowledgement reads as acknowledged; and everything else is only committed. */
  lemma FinalityExactly(row: Row, now: int, policyMs: Option<int>)
    requires BuildReadback(row, now, policyMs).Ok?
    ensures var readback := BuildReadback(row, now, policyMs).value;
            var confirmed := row.confirmedAt.Some? && row.readbackRef.Some? && |row.readbackRef.value| > 0;
            var reconciling := row.checkResult.Some? || row.receiptState == RowReconciling
                               || row.outboxState == RowReconciling;
            var acknowledged := row.acknowledgedAt.Some? || row.receiptState == RowAcknowledged
                                || row.outboxState == RowAcknowledged;
            && (readback.businessFinal <==> readback.finality == FinallyConfirmed)
            && (readback.finality == FinallyConfirmed <==>
                  confirmed && policyMs.Some? && now < row.confirmedAt.value + policyMs.value)
            && (readback.finality == Reconciling <==>
                  if confirmed then policyMs.None? || now >= row.confirmedAt.value + policyMs.value else reconciling)
            && (readback.finality == Acknowledged <==> !confirmed && !reconciling && acknowledged)
            && (readback.finality == DomainCommitted <==> !confirmed && !reconciling && !acknowledged)
            && (readback.freshness == Freshness.Fresh <==> readback.finality == FinallyConfirmed)
            && (readback.freshness == Stale <==>
                  confirmed && policyMs.Some? && now >= row.confirmedAt.value + policyMs.value)
            && (readback.freshness == Unknown <==>
                  !confirmed && row.checkedAt.None? && row.acknowledgedAt.None? && row.committedAt.None?)
  {}

  /** Once a confirmation has gone stale it stays stale. */
  lemma FinalityOnlyExpires(row: Row, earlier: int, later: int, policyMs: Option<int>)
    requires earlier <= later && BuildReadback(row, later, policyMs).Ok?
    requires BuildReadback(row, later, policyMs).value.businessFinal
    ensures BuildReadback(row, earlier, policyMs).Ok?
    ensures BuildReadback(row, earlier, policyMs).value.businessFinal
  {
    FinalExactly(row, earlier, policyMs);
    FinalExactly(row, later, policyMs);
  }

  /** The row read for a delivery; `latest` is the attempt of the checkpoint checked last, if there is one. */
  ghost predicate RowOf(d: Delivery, latest: nat, row: Row) {
    && (d.checkpoints == map[] || latest in d.checkpoints)
    && row.confirmedAt == FirstOf(d.message.confirmedAt, d.receipt.confirmedAt)
    && row.readbackRef == FirstOf(FirstOf(d.message.readbackRef, d.receipt.readbackRef),
                                  if latest in d.checkpoints then d.checkpoints[latest].readbackRef else None)
    && row.acknowledgedAt == d.message.acknowledgedAt
    && row.committedAt == Some(d.receipt.committedAt)
    && (row.checkResult.Some? <==> latest in d.checkpoints)
    && (latest in d.checkpoints ==> row.checkResult == Some(d.checkpoints[latest].result)
                                    && row.checkedAt == Some(d.checkpoints[latest].checkedAt))
    && row.receiptState == RowOther
    && (row.outboxState == RowReconciling <==> d.message.state == ReconciliationRequired)
    && (row.outboxState == RowAcknowledged <==> d.message.state == ProviderAcknowledged)
  }

  /** A delivery reads back as final only after a matched source readback with evidence, which on the leased
      path observed exactly the committed version; an acknowledgement alone reads back as reconciling. */
  lemma FinalOnlyAfterMatch(d: Delivery, latest: nat, row: Row, now: int, policyMs: Option<int>)
    requires Inv(d) && RowOf(d, latest, row) && BuildReadback(row, now, policyMs).Ok?
    ensures var readback := BuildReadback(row, now, policyMs).value;
            && (readback.businessFinal ==>
                  var n := d.message.attemptCount;
                  && d.message.state == SourceConfirmed && d.receipt.state == ReceiptConfirmed
                  && n in d.checkpoints && d.checkpoints[n].result == Closed(Matched)
                  && HasText(d.message.readbackRef)
                  && (n in d.attempts && d.attempts[n].readbackRef.Some? ==>
                        d.checkpoints[n].observedVersion == Some(d.receipt.committedVersion)))
            && (AwaitingSource(d) ==> readback.finality == Reconciling)
            && (d.message.state == SourceConfirmed ==>
                  (readback.businessFinal <==>
                     policyMs.Some? && now < d.message.confirmedAt.value + policyMs.value))
  {
    FinalExactly(row, now, policyMs);
    if d.message.state == SourceConfirmed {
      ConfirmedHasEvidence(d);
    } else {
      assert d.message.confirmedAt.None? && d.receipt.confirmedAt.None?;
    }
  }

  lemma ConfirmedHasEvidence(d: Delivery)
    requires Inv(d) && d.message.state == SourceConfirmed
    ensures d.message.confirmedAt.Some? && d.message.readbackRef.Some? && d.message.readbackRef.value != []
  {
    assert Blank([]);
  }

  /** Over every run of a message: it reads back as final only in its last state, and what led there was a matched
      readback with evidence, on the leased path of the committed version, of a message that awaited its source. */
  lemma FinalEndsTheRun(
    states: seq<Delivery>, log: seq<Stamped>, j: nat, latest: nat, row: Row, now: int, policyMs: Option<int>)
    requires Trace(states, log) && DeliverySafety.Fresh(states[0]) && j <= |log|
    requires RowOf(states[j], latest, row) && BuildReadback(row, now, policyMs).Ok?
    requires BuildReadback(row, now, policyMs).value.businessFinal
    ensures j == |log| > 0 && AwaitingSource(states[j - 1])
    ensures var e := log[j - 1].event;
            || (e.CompleteCheck? && e.observation == Matched && HasText(e.readbackRef)
                && e.observedVersion == Some(states[j - 1].receipt.committedVersion))
            || (e.CloseByOperator? && e.observation == Matched && HasText(e.readbackRef))
  {
    hide Apply, Inv, BuildReadback, RowOf;
    FreshIsValid(states[0]);
    RunKeepsInv(states, log, j);
    FinalOnlyAfterMatch(states[j], latest, row, now, policyMs);
    TerminalNeverLeft(states, log, j);
    RunKeepsInv(states, log, j - 1);
    TraceStep(states, log, j - 1);
    if states[j - 1].message.state == SourceConfirmed {
      TerminalNeverLeft(states, log, j - 1);
    }
    OnlyAMatchConfirms(states[j - 1], log[j - 1].event, log[j - 1].now);
  }
}
