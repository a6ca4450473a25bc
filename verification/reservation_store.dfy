/** The gateway store as it runs: one transaction per command, on a working copy that becomes the tables only when
    every statement succeeded. */
module ReservationStore {
  import opened Wrappers
  import opened Texts
  import opened Reservations

  class GatewayStore {
    const names: Naming
    var tables: Tables

    constructor (names: Naming)
      ensures this.names == names && tables == EMPTY
    {
      this.names, tables := names, EMPTY;
    }

    method PrepareCommand(c: Command, now: int) returns (error: Option<GatewayError>, replay: bool)
      modifies this`tables
      ensures match Prepare(old(tables), names, c, now)
              case Ok(after) =>
                error.None? && tables == after && (replay <==> Reserved(old(tables), names, c.operation))
              case Err(e) => error == Some(e) && tables == old(tables)
    {
      replay := false;
      var id := names.reservation(c.operation);
      if id in tables.reservations && tables.reservations[id].operation == c.operation {
        var existing := tables.reservations[id];
        if existing.commandHash != c.commandHash {
          return Some(IdempotencyConflict), false;
        }
        if existing.admission.None? {
          return Some(AdmissionRequired), false;
        }
        return None, true;
      }
      if id in tables.reservations {
        return Some(DuplicateKey), false;
      }
      var row := Reservation(
        c.operation, Some(c.admission), c.tool, c.target, c.observedVersion, c.effectClass, c.approvalMode,
        c.commandHash, c.preview, Prepared, None, now + LIFETIME, now);
      tables := tables.(reservations := tables.reservations[id := row]);
      return None, false;
    }

    /** Archives the target inside the transaction whose working copy is `work`. */
    method ArchiveInternalAction(work: Tables, r: Reservation, now: int)
      returns (after: Tables, error: Option<GatewayError>)
      ensures match Archive(work, names, r, now)
              case Ok(t) => error.None? && after == t
              case Err(e) => error == Some(e)
    {
      after := work;
      var wanted := r.preview.payload;
      var caseId := r.target.caseId;
      if caseId !in work.cases || CaseVersion(caseId, work.cases[caseId]) != r.expectedVersion {
        return after, Some(ExactVersionRequired);
      }
      if !wanted.Target? || wanted.receipt !in work.actions {
        return after, Some(ArchiveTargetNotFound);
      }
      var action := work.actions[wanted.receipt];
      if action.target.caseId != r.target.caseId || action.target.caseType != r.target.caseType
         || action.campaign != r.preview.campaign {
        return after, Some(ArchiveScopeMismatch);
      }
      if !Archivable(action.tool) {
        return after, Some(ArchiveTargetImmutable);
      }
      if action.objectVersion != wanted.version || names.digest(action.preview) != wanted.payloadHash {
        return after, Some(ArchiveTargetChanged);
      }
      if action.archivedAt.Some? {
        return after, None;
      }
      after := work.(actions := work.actions[wanted.receipt := action.(archivedAt := Some(now))]);
      return after, None;
    }

    /** On an error the working copy is dropped: neither the archival nor its evidence remains. */
    method ExecuteCommand(q: Request) returns (result: Result<Execution, GatewayError>)
      modifies this`tables
      ensures match Execute(old(tables), names, q)
              case Ok((after, execution)) => tables == after && result == Ok(execution)
              case Err(e) => tables == old(tables) && result == Err(e)
    {
      hide CampaignFits, CaseVersion, IsUser, Archive;
      if !Approved(q) {
        return Err(ApprovalRefused);
      }
      var id := q.reservation;
      if id !in tables.reservations {
        return Err(ReservationNotFound);
      }
      var work := tables;
      var reservation := work.reservations[id];
      if reservation.admission.None? {
        return Err(AdmissionRequired);
      }
      if reservation.commandHash != q.commandHash {
        return Err(HashMismatch);
      }
      if reservation.effectClass != A1 || reservation.approvalMode != PerCommandHuman {
        return Err(ExecutionBlocked);
      }
      if reservation.expiresAt <= q.now {
        return Err(Expired);
      }
      if reservation.state == Executed && reservation.receipt.Some? {
        var replay := Observed(work, reservation.receipt.value, q.now);
        if replay.None? {
          return Err(ReadbackMissing);
        }
        return Ok(Execution(id, replay.value, true));
      }
      if reservation.state != Prepared {
        return Err(StateInvalid);
      }
      if reservation.tool == ArchiveAction {
        var error;
        work, error := ArchiveInternalAction(work, reservation, q.now);
        if error.Some? {
          return Err(error.value);
        }
        ArchiveExtends(tables, names, reservation, q.now);
      }
      var actionId := names.action(id);
      var receipt := names.receipt(actionId);
      var action := Action(actionId, id, reservation.operation, reservation.tool, reservation.target,
                           reservation.expectedVersion, reservation.preview.campaign, reservation.preview,
                           q.approval, None);
      if !CampaignFits(reservation.preview.campaign) || reservation.tool == RfqEmail {
        return Err(ConstraintViolation);
      }
      if !ActionFits(work, receipt, action) {
        return Err(DuplicateKey);
      }
      work := work.(actions := work.actions[receipt := action]);
      reservation := reservation.(state := Executed, receipt := Some(receipt));
      work := work.(reservations := work.reservations[id := reservation]);
      var readback := Observed(work, receipt, q.now);
      tables := work;
      return Ok(Execution(id, readback.value, false));
    }
  }
}
