/** Agent command reservations of one tenant: preparing, executing under a human approval, and archiving. */
module Reservations {
  import opened Wrappers
  import opened Texts
  import NumberText

  datatype Tool = ProposalRevision | Task | Note | GmailDraft | ArchiveAction | RfqEmail

  datatype EffectClass = A1 | A2 | A3

  datatype ApprovalMode = ApprovalBlocked | PerCommandHuman | PolicyEnvelope

  datatype State = Prepared | Executed | Cancelled | ReconciliationRequired

  /** The arguments kept with a reservation: the content of an action, or which action to archive. */
  datatype Payload = Content(text: Text) | Target(receipt: Text, version: Text, payloadHash: Text)

  datatype Preview = Preview(campaign: Text, payload: Payload)

  datatype Case = Case(caseId: Text, caseType: Text)

  datatype Reservation = Reservation(
    operation: Text, admission: Option<Text>, tool: Tool, target: Case, expectedVersion: Text,
    effectClass: EffectClass, approvalMode: ApprovalMode, commandHash: Text, preview: Preview,
    state: State, receipt: Option<Text>, expiresAt: int, createdAt: int)

  /** A signed approval as submitted; a time is none when it does not parse. */
  datatype Approval = Approval(
    approvalId: Text, reservation: Text, commandHash: Text, operator: Text,
    approvedAt: Option<int>, expiresAt: Option<int>, signatureMatches: bool)

  datatype Action = Action(
    actionId: Text, reservation: Text, operation: Text, tool: Tool, target: Case, objectVersion: Text,
    campaign: Text, preview: Preview, approval: Approval, archivedAt: Option<int>)

  /** Reservations by id, actions by receipt id, and the versions of the commercial cases. */
  datatype Tables = Tables(
    reservations: map<Text, Reservation>, actions: map<Text, Action>, cases: map<Text, nat>)

  const EMPTY := Tables(map[], map[], map[])

  /** The truncated digests that name rows, and the digest of a stored preview.  Nothing says that names differ. */
  datatype Naming = Naming(
    reservation: Text -> Text, action: Text -> Text, receipt: Text -> Text, digest: Preview -> Text)

  datatype GatewayError =
    | IdempotencyConflict | DuplicateKey | ReservationNotFound | AdmissionRequired | HashMismatch
    | ExecutionBlocked | Expired | ReadbackMissing | StateInvalid | ExactVersionRequired
    | ArchiveTargetNotFound | ArchiveScopeMismatch | ArchiveTargetImmutable | ArchiveTargetChanged
    | ConstraintViolation | ApprovalRefused

  const LIFETIME: nat := 15 * 60_000

  // ---------------------------------------------------------------- preparing

  datatype Command = Command(
    operation: Text, admission: Text, tool: Tool, target: Case, observedVersion: Text,
    effectClass: EffectClass, approvalMode: ApprovalMode, commandHash: Text, preview: Preview)

  /** The row that a select by operation finds: reservation ids are digests of the operation. */
  predicate Reserved(t: Tables, names: Naming, operation: Text) {
    var id := names.reservation(operation);
    id in t.reservations && t.reservations[id].operation == operation
  }

  function Prepare(t: Tables, names: Naming, c: Command, now: int): Result<Tables, GatewayError> {
    var id := names.reservation(c.operation);
    if Reserved(t, names, c.operation) then
      if t.reservations[id].commandHash != c.commandHash then Err(IdempotencyConflict)
      else if t.reservations[id].admission.None? then Err(AdmissionRequired)
      else Ok(t)
    else if id in t.reservations then Err(DuplicateKey)
    else
      Ok(t.(reservations := t.reservations[id := Reservation(
        c.operation, Some(c.admission), c.tool, c.target, c.observedVersion, c.effectClass, c.approvalMode,
        c.commandHash, c.preview, Prepared, None, now + LIFETIME, now)]))
  }

  // ---------------------------------------------------------------- archiving

  const COMMERCIAL_CASE: Text := Word("commercial-case:")
  const VERSION_MARK: Text := Word(":v")

  function CaseVersion(caseId: Text, version: nat): Text {
    COMMERCIAL_CASE + caseId + VERSION_MARK + NumberText.NatText(version)
  }

  predicate Archivable(tool: Tool) { tool == Task || tool == GmailDraft || tool == ProposalRevision }

  function Archive(t: Tables, names: Naming, r: Reservation, now: int): Result<Tables, GatewayError> {
    var caseId, wanted := r.target.caseId, r.preview.payload;
    if caseId !in t.cases || CaseVersion(caseId, t.cases[caseId]) != r.expectedVersion then Err(ExactVersionRequired)
    else if !wanted.Target? || wanted.receipt !in t.actions then Err(ArchiveTargetNotFound)
    else
      var action := t.actions[wanted.receipt];
      if action.target != r.target || action.campaign != r.preview.campaign then Err(ArchiveScopeMismatch)
      else if !Archivable(action.tool) then Err(ArchiveTargetImmutable)
      else if action.objectVersion != wanted.version || names.digest(action.preview) != wanted.payloadHash then
        Err(ArchiveTargetChanged)
      else if action.archivedAt.Some? then Ok(t)
      else Ok(t.(actions := t.actions[wanted.receipt := action.(archivedAt := Some(now))]))
  }

  // ---------------------------------------------------------------- executing

  predicate LowerOrDigit(u: Unit) { 97 <= u <= 122 || 48 <= u <= 57 }

  const CAMPAIGN: Text := Word("sultan-campaign-")

  /** The check on the campaign column: the prefix, a lower-case letter or digit, then 2 to 80 of those or hyphens. */
  predicate CampaignFits(campaign: Text) {
    var n := |CAMPAIGN|;
    && CAMPAIGN <= campaign && n + 3 <= |campaign| <= n + 81
    && LowerOrDigit(campaign[n])
    && forall i :: n < i < |campaign| ==> LowerOrDigit(campaign[i]) || campaign[i] == 45
  }

  datatype Readback = Readback(receipt: Text, archived: bool, observedAt: int)

  datatype Execution = Execution(reservation: Text, readback: Readback, replay: bool)

  function Observed(t: Tables, receipt: Text, now: int): Option<Readback> {
    if receipt in t.actions then Some(Readback(receipt, t.actions[receipt].archivedAt.Some?, now)) else None
  }

  predicate ActionFits(t: Tables, receipt: Text, row: Action) {
    && receipt !in t.actions
    && forall other <- t.actions ::
         t.actions[other].actionId != row.actionId && t.actions[other].reservation != row.reservation
  }

  function Insert(t: Tables, names: Naming, id: Text, r: Reservation, approval: Approval, now: int)
    : Result<(Tables, Execution), GatewayError>
    requires id in t.reservations
  {
    var actionId := names.action(id);
    var receipt := names.receipt(actionId);
    var row := Action(actionId, id, r.operation, r.tool, r.target, r.expectedVersion, r.preview.campaign, r.preview,
                      approval, None);
    if !CampaignFits(r.preview.campaign) || r.tool == RfqEmail then Err(ConstraintViolation)
    else if !ActionFits(t, receipt, row) then Err(DuplicateKey)
    else
      Ok((t.(actions := t.actions[receipt := row],
             reservations := t.reservations[id := r.(state := Executed, receipt := Some(receipt))]),
          Execution(id, Readback(receipt, false, now), false)))
  }

  const USER: Text := Word("user_")

  /** A person's id: the prefix and 64 lower-case hexadecimal digits. */
  predicate IsUser(operator: Text) {
    && USER <= operator && |operator| == |USER| + 64
    && forall i :: |USER| <= i < |operator| ==> 48 <= operator[i] <= 57 || 97 <= operator[i] <= 102
  }

  const CLOCK_SKEW: nat := 30_000

  /** A request to execute: the approval is checked at one time and the command is run at a later one. */
  datatype Request = Request(reservation: Text, commandHash: Text, approval: Approval, checkedAt: int, now: int)

  /** A person approved exactly this command, for at most 15 minutes, and the approval still stands. */
  predicate Approved(q: Request) {
    var a := q.approval;
    && a.reservation == q.reservation && a.commandHash == q.commandHash
    && IsUser(a.operator)
    && a.approvedAt.Some? && a.expiresAt.Some?
    && a.approvedAt.value <= q.checkedAt + CLOCK_SKEW && a.expiresAt.value > q.checkedAt
    && a.expiresAt.value - a.approvedAt.value <= LIFETIME
    && a.signatureMatches
  }

  /** Only an A1 command under per-command approval, unexpired and with the reserved hash, gets any further. */
  function Refusal(t: Tables, q: Request): Option<GatewayError> {
    if !Approved(q) then Some(ApprovalRefused)
    else if q.reservation !in t.reservations then Some(ReservationNotFound)
    else
      var r := t.reservations[q.reservation];
      if r.admission.None? then Some(AdmissionRequired)
      else if r.commandHash != q.commandHash then Some(HashMismatch)
      else if r.effectClass != A1 || r.approvalMode != PerCommandHuman then Some(ExecutionBlocked)
      else if r.expiresAt <= q.now then Some(Expired)
      else None
  }

  function Execute(t: Tables, names: Naming, q: Request): Result<(Tables, Execution), GatewayError> {
    var refusal := Refusal(t, q);
    if refusal.Some? then Err(refusal.value)
    else
      var id := q.reservation;
      var r := t.reservations[id];
      if r.state == Executed && r.receipt.Some? then
        var seen := Observed(t, r.receipt.value, q.now);
        if seen.None? then Err(ReadbackMissing) else Ok((t, Execution(id, seen.value, true)))
      else if r.state != Prepared then Err(StateInvalid)
      else if r.tool == ArchiveAction then
        var archived := Archive(t, names, r, q.now);
        if archived.Err? then Err(archived.error) else Insert(archived.value, names, id, r, q.approval, q.now)
      else Insert(t, names, id, r, q.approval, q.now)
  }

  // ---------------------------------------------------------------- runs

  /** A case may move to any version at any time. */
  datatype Step =
    | DoPrepare(command: Command, at: int)
    | DoExecute(request: Request)
    | MoveCase(caseId: Text, version: nat)

  function Next(t: Tables, names: Naming, s: Step): Tables {
    match s
    case DoPrepare(c, now) => var r := Prepare(t, names, c, now); if r.Ok? then r.value else t
    case DoExecute(q) => var r := Execute(t, names, q); if r.Ok? then r.value.0 else t
    case MoveCase(caseId, version) => t.(cases := t.cases[caseId := version])
  }

  function Run(t: Tables, names: Naming, steps: seq<Step>): Tables
    decreases |steps|
  {
    if steps == [] then t else Run(Next(t, names, steps[0]), names, steps[1..])
  }

  ghost predicate ReservationValid(t: Tables, names: Naming, id: Text)
    requires id in t.reservations
  {
    var r := t.reservations[id];
    && id == names.reservation(r.operation)
    && (r.state == Prepared || r.state == Executed)
    && (r.state == Executed <==> r.receipt.Some?)
    && (r.receipt.Some? ==> r.receipt.value in t.actions && t.actions[r.receipt.value].reservation == id)
  }

  /** An action belongs to the executed reservation that names its receipt, and repeats what was reserved. */
  ghost predicate ActionValid(t: Tables, receipt: Text)
    requires receipt in t.actions
  {
    var a := t.actions[receipt];
    && a.reservation in t.reservations
    && var r := t.reservations[a.reservation];
       && r.receipt == Some(receipt) && r.preview == a.preview && r.operation == a.operation
       && r.tool == a.tool && r.target == a.target && r.expectedVersion == a.objectVersion
       && a.campaign == a.preview.campaign && r.effectClass == A1 && r.approvalMode == PerCommandHuman
       && a.approval.reservation == a.reservation && a.approval.commandHash == r.commandHash
       && IsUser(a.approval.operator)
  }

  /** Action `order` is a recorded archive action of the same case and campaign that names `receipt`. */
  ghost predicate Names(t: Tables, order: Text, receipt: Text)
    requires receipt in t.actions
  {
    && order in t.actions && t.actions[order].tool == ArchiveAction
    && t.actions[order].preview.payload.Target? && t.actions[order].preview.payload.receipt == receipt
    && t.actions[order].target == t.actions[receipt].target
    && t.actions[order].campaign == t.actions[receipt].campaign
  }

  ghost predicate ArchivalValid(t: Tables, receipt: Text)
    requires receipt in t.actions
  {
    t.actions[receipt].archivedAt.Some? ==>
      Archivable(t.actions[receipt].tool) && exists order :: Names(t, order, receipt)
  }

  ghost predicate Valid(t: Tables, names: Naming) {
    && (forall id <- t.reservations :: ReservationValid(t, names, id))
    && (forall receipt <- t.actions :: ActionValid(t, receipt))
    && (forall receipt <- t.actions :: ArchivalValid(t, receipt))
  }

  /** Rows stay, actions keep everything but a first archival, executed reservations stay as they are. */
  ghost predicate Extends(before: Tables, after: Tables) {
    && (forall id <- before.reservations :: id in after.reservations
          && after.reservations[id].(state := Prepared, receipt := None)
             == before.reservations[id].(state := Prepared, receipt := None)
          && (before.reservations[id].state == Executed && before.reservations[id].receipt.Some? ==>
                after.reservations[id] == before.reservations[id]))
    && (forall receipt <- before.actions :: receipt in after.actions
          && after.actions[receipt].(archivedAt := None) == before.actions[receipt].(archivedAt := None)
          && (before.actions[receipt].archivedAt.Some? ==>
                after.actions[receipt].archivedAt == before.actions[receipt].archivedAt))
  }

  lemma ExtendsTransitive(a: Tables, b: Tables, c: Tables)
    requires Extends(a, b) && Extends(b, c)
    ensures Extends(a, c)
  {}

  lemma InsertExtends(t: Tables, names: Naming, id: Text, approval: Approval, now: int)
    requires id in t.reservations && t.reservations[id].state == Prepared
    requires Insert(t, names, id, t.reservations[id], approval, now).Ok?
    ensures Extends(t, Insert(t, names, id, t.reservations[id], approval, now).value.0)
  {
    hide CampaignFits;
  }

  lemma ArchiveExtends(t: Tables, names: Naming, r: Reservation, now: int)
    requires Archive(t, names, r, now).Ok?
    ensures Extends(t, Archive(t, names, r, now).value)
    ensures Archive(t, names, r, now).value.reservations == t.reservations
  {
    hide CaseVersion;
  }

  lemma ExecuteExtends(t: Tables, names: Naming, q: Request)
    requires Execute(t, names, q).Ok?
    ensures Extends(t, Execute(t, names, q).value.0)
  {
    hide Insert, Archive, Extends, Approved;
    var id, approval, now := q.reservation, q.approval, q.now;
    var r := t.reservations[id];
    if r.state == Executed {
      assert Extends(t, t) by { SelfExtends(t); }
    } else if r.tool == ArchiveAction {
      ArchiveExtends(t, names, r, now);
      var a := Archive(t, names, r, now).value;
      InsertExtends(a, names, id, approval, now);
      ExtendsTransitive(t, a, Insert(a, names, id, r, approval, now).value.0);
    } else {
      InsertExtends(t, names, id, approval, now);
    }
  }

  lemma SelfExtends(t: Tables)
    ensures Extends(t, t)
  {}

  lemma NextExtends(t: Tables, names: Naming, s: Step)
    ensures Extends(t, Next(t, names, s))
  {
    hide Execute;
    if s.DoExecute? {
      SelfExtends(t);
      if Execute(t, names, s.request).Ok? {
        ExecuteExtends(t, names, s.request);
      }
    }
  }

  lemma {:induction false} RunExtends(t: Tables, names: Naming, steps: seq<Step>)
    ensures Extends(t, Run(t, names, steps))
    decreases |steps|
  {
    hide Next;
    if steps != [] {
      NextExtends(t, names, steps[0]);
      RunExtends(Next(t, names, steps[0]), names, steps[1..]);
    }
  }

  lemma PrepareKeepsValid(t: Tables, names: Naming, c: Command, now: int)
    requires Valid(t, names) && Prepare(t, names, c, now).Ok?
    ensures Valid(Prepare(t, names, c, now).value, names)
  {
    hide IsUser;
    var u := Prepare(t, names, c, now).value;
    forall receipt | receipt in u.actions ensures ActionValid(u, receipt) && ArchivalValid(u, receipt) {
      assert ActionValid(t, receipt) && ArchivalValid(t, receipt);
      if order :| Names(t, order, receipt) {
        assert Names(u, order, receipt);
      }
    }
    forall id | id in u.reservations ensures ReservationValid(u, names, id) {
      if id in t.reservations {
        assert ReservationValid(t, names, id);
      }
    }
  }

  /** Everything holds, except that nothing may name the actions in `open` yet. */
  ghost predicate ValidBut(t: Tables, names: Naming, open: set<Text>) {
    && (forall id <- t.reservations :: ReservationValid(t, names, id))
    && (forall receipt <- t.actions :: ActionValid(t, receipt))
    && (forall receipt <- t.actions :: receipt !in open ==> ArchivalValid(t, receipt))
  }

  /** Recording an action closes the gap that archiving its target left. */
  lemma InsertKeepsValid(t: Tables, names: Naming, id: Text, approval: Approval, now: int, open: set<Text>)
    requires id in t.reservations && ValidBut(t, names, open)
    requires var r := t.reservations[id];
             && r.state == Prepared && r.effectClass == A1 && r.approvalMode == PerCommandHuman
             && approval.reservation == id && approval.commandHash == r.commandHash && IsUser(approval.operator)
             && forall receipt <- open ::
                  && r.tool == ArchiveAction && r.preview.payload.Target? && r.preview.payload.receipt == receipt
                  && receipt in t.actions && Archivable(t.actions[receipt].tool)
                  && t.actions[receipt].target == r.target && t.actions[receipt].campaign == r.preview.campaign
    requires Insert(t, names, id, t.reservations[id], approval, now).Ok?
    ensures Valid(Insert(t, names, id, t.reservations[id], approval, now).value.0, names)
  {
    hide CampaignFits, IsUser;
    var u := Insert(t, names, id, t.reservations[id], approval, now).value.0;
    var own := names.receipt(names.action(id));
    assert ReservationValid(t, names, id);
    forall receipt | receipt in u.actions ensures ActionValid(u, receipt) && ArchivalValid(u, receipt) {
      if receipt in t.actions {
        assert ActionValid(t, receipt);
        if receipt in open {
          assert Names(u, own, receipt);
        } else {
          assert ArchivalValid(t, receipt);
          if order :| Names(t, order, receipt) {
            assert Names(u, order, receipt);
          }
        }
      }
    }
    forall other | other in u.reservations ensures ReservationValid(u, names, other) {
      assert ReservationValid(t, names, other);
    }
  }

  lemma ArchiveKeepsNames(t: Tables, names: Naming, r: Reservation, now: int)
    requires Archive(t, names, r, now).Ok?
    ensures var a := Archive(t, names, r, now).value;
            forall order, receipt :: receipt in t.actions && Names(t, order, receipt) ==>
              receipt in a.actions && Names(a, order, receipt)
  {
    hide CaseVersion;
  }

  lemma ArchiveOpens(t: Tables, names: Naming, r: Reservation, now: int)
    requires Valid(t, names) && Archive(t, names, r, now).Ok?
    ensures r.preview.payload.Target?
    ensures var a, receipt := Archive(t, names, r, now).value, r.preview.payload.receipt;
            && ValidBut(a, names, {receipt}) && a.reservations == t.reservations
            && receipt in a.actions && Archivable(a.actions[receipt].tool)
            && a.actions[receipt].target == r.target && a.actions[receipt].campaign == r.preview.campaign
  {
    hide CaseVersion, IsUser, Names;
    var a := Archive(t, names, r, now).value;
    ArchiveKeepsNames(t, names, r, now);
    forall receipt | receipt in a.actions
      ensures ActionValid(a, receipt) && (receipt != r.preview.payload.receipt ==> ArchivalValid(a, receipt))
    {
      assert ActionValid(t, receipt) && ArchivalValid(t, receipt);
    }
    forall id | id in a.reservations ensures ReservationValid(a, names, id) {
      assert ReservationValid(t, names, id);
    }
  }

  lemma ExecuteKeepsValid(t: Tables, names: Naming, q: Request)
    requires Valid(t, names) && Execute(t, names, q).Ok?
    ensures Valid(Execute(t, names, q).value.0, names)
  {
    hide Insert, Archive, ReservationValid, ActionValid, ArchivalValid, IsUser;
    var id, approval, now := q.reservation, q.approval, q.now;
    var r := t.reservations[id];
    if r.state == Prepared {
      if r.tool == ArchiveAction {
        ArchiveOpens(t, names, r, now);
        InsertKeepsValid(Archive(t, names, r, now).value, names, id, approval, now, {r.preview.payload.receipt});
      } else {
        InsertKeepsValid(t, names, id, approval, now, {});
      }
    }
  }

  lemma NextKeepsValid(t: Tables, names: Naming, s: Step)
    requires Valid(t, names)
    ensures Valid(Next(t, names, s), names)
  {
    match s
    case DoPrepare(c, now) =>
      hide Prepare, Valid;
      if Prepare(t, names, c, now).Ok? {
        PrepareKeepsValid(t, names, c, now);
      }
    case DoExecute(q) =>
      hide Execute, Valid;
      if Execute(t, names, q).Ok? {
        ExecuteKeepsValid(t, names, q);
      }
    case MoveCase(caseId, version) => MoveKeepsValid(t, names, caseId, version);
  }

  lemma MoveKeepsValid(t: Tables, names: Naming, caseId: Text, version: nat)
    requires Valid(t, names)
    ensures Valid(t.(cases := t.cases[caseId := version]), names)
  {
    var u := t.(cases := t.cases[caseId := version]);
    forall id | id in u.reservations ensures ReservationValid(u, names, id) {
      assert ReservationValid(t, names, id);
    }
    forall receipt | receipt in u.actions ensures ActionValid(u, receipt) && ArchivalValid(u, receipt) {
      assert ActionValid(t, receipt) && ArchivalValid(t, receipt);
      if order :| Names(t, order, receipt) {
        assert Names(u, order, receipt);
      }
    }
  }

  lemma {:induction false} RunKeepsValid(t: Tables, names: Naming, steps: seq<Step>)
    requires Valid(t, names)
    ensures Valid(Run(t, names, steps), names)
    decreases |steps|
  {
    hide Valid, Next;
    if steps != [] {
      NextKeepsValid(t, names, steps[0]);
      RunKeepsValid(Next(t, names, steps[0]), names, steps[1..]);
    }
  }

  // ---------------------------------------------------------------- what follows

  /** Over every run: one reservation for an operation, one action for a reservation. */
  lemma OneOfEach(names: Naming, steps: seq<Step>)
    ensures var t := Run(EMPTY, names, steps);
            && (forall a <- t.reservations, b <- t.reservations ::
                  t.reservations[a].operation == t.reservations[b].operation ==> a == b)
            && (forall a <- t.actions, b <- t.actions ::
                  t.actions[a].reservation == t.actions[b].reservation ==> a == b)
  {
    RunKeepsValid(EMPTY, names, steps);
    var t := Run(EMPTY, names, steps);
    forall a, b | a in t.reservations && b in t.reservations
                  && t.reservations[a].operation == t.reservations[b].operation
      ensures a == b
    {
      assert ReservationValid(t, names, a) && ReservationValid(t, names, b);
    }
    forall a, b | a in t.actions && b in t.actions && t.actions[a].reservation == t.actions[b].reservation
      ensures a == b
    {
      assert ActionValid(t, a) && ActionValid(t, b);
    }
  }

  /** Over every run, an archived action is a task, draft or proposal revision that a recorded archive action of the
      same case and campaign names. */
  lemma ArchivedIsNamed(names: Naming, steps: seq<Step>, receipt: Text)
    requires receipt in Run(EMPTY, names, steps).actions
    requires Run(EMPTY, names, steps).actions[receipt].archivedAt.Some?
    ensures var t := Run(EMPTY, names, steps);
            Archivable(t.actions[receipt].tool) && exists order :: Names(t, order, receipt)
  {
    RunKeepsValid(EMPTY, names, steps);
    assert ArchivalValid(Run(EMPTY, names, steps), receipt);
  }

  /** Every action on record was approved by a person, for exactly the command that was reserved. */
  lemma ActionsAreApproved(names: Naming, steps: seq<Step>, receipt: Text)
    requires receipt in Run(EMPTY, names, steps).actions
    ensures var t := Run(EMPTY, names, steps);
            var a := t.actions[receipt];
            && a.reservation in t.reservations && t.reservations[a.reservation].effectClass == A1
            && a.preview == t.reservations[a.reservation].preview
            && a.approval.reservation == a.reservation && IsUser(a.approval.operator)
            && a.approval.commandHash == t.reservations[a.reservation].commandHash
  {
    hide IsUser;
    RunKeepsValid(EMPTY, names, steps);
    assert ActionValid(Run(EMPTY, names, steps), receipt);
  }

  /** After an execution, whatever happens in between, an approved request to execute again runs nothing: it reports
      the original receipt until the reservation expires, and only `Expired` from then on. */
  lemma ReplayUntilExpiry(t: Tables, names: Naming, q: Request, between: seq<Step>, again: Request)
    requires Valid(t, names) && Execute(t, names, q).Ok?
    requires Approved(again) && again.reservation == q.reservation && again.commandHash == q.commandHash
    ensures var (after, first) := Execute(t, names, q).value;
            var u := Run(after, names, between);
            var second := Execute(u, names, again);
            && q.reservation in u.reservations
            && u.reservations[q.reservation].expiresAt == t.reservations[q.reservation].expiresAt
            && if again.now < t.reservations[q.reservation].expiresAt then
                 && second.Ok? && second.value.0 == u && second.value.1.replay
                 && second.value.1.readback.receipt == first.readback.receipt
                 && second.value.1.readback.observedAt == again.now
                 && (first.readback.archived ==> second.value.1.readback.archived)
               else second == Err(Expired)
  {
    hide Insert, Archive, Approved, Valid, Next, Execute;
    var after := Execute(t, names, q).value.0;
    ExecuteExtends(t, names, q);
    ExecutedRow(t, names, q);
    RunExtends(after, names, between);
    Replays(Run(after, names, between), names, again);
  }

  lemma Replays(u: Tables, names: Naming, q: Request)
    requires Approved(q) && q.reservation in u.reservations
    requires var r := u.reservations[q.reservation];
             && r.admission.Some? && r.commandHash == q.commandHash && r.effectClass == A1
             && r.approvalMode == PerCommandHuman && r.state == Executed && r.receipt.Some?
             && r.receipt.value in u.actions
    ensures var r := u.reservations[q.reservation];
            Execute(u, names, q) ==
              if r.expiresAt <= q.now then Err(Expired)
              else Ok((u, Execution(q.reservation, Observed(u, r.receipt.value, q.now).value, true)))
  {}

  lemma ExecutedRow(t: Tables, names: Naming, q: Request)
    requires Valid(t, names) && Execute(t, names, q).Ok?
    ensures var (after, first) := Execute(t, names, q).value;
            && q.reservation in t.reservations && q.reservation in after.reservations
            && var r := after.reservations[q.reservation];
               && r.state == Executed && r.receipt == Some(first.readback.receipt)
               && r.commandHash == q.commandHash && r.effectClass == A1 && r.approvalMode == PerCommandHuman
               && r.admission.Some?
               && first.readback.receipt in after.actions
               && first.readback.archived == after.actions[first.readback.receipt].archivedAt.Some?
  {
    hide CampaignFits, CaseVersion, IsUser;
  }

  /** With a collision-free digest, the result hash of a replay differs from the original whenever the clock or the
      archival moved: it covers the time of observation. */
  lemma ResultHashFollowsTheClock(digest: ((Text, Readback)) -> Text, a: Execution, b: Execution)
    requires forall x, y :: digest(x) == digest(y) ==> x == y
    requires a.reservation == b.reservation && a.readback.receipt == b.readback.receipt
    ensures digest((a.reservation, a.readback)) == digest((b.reservation, b.readback))
       <==> a.readback.observedAt == b.readback.observedAt && a.readback.archived == b.readback.archived
  {
    if digest((a.reservation, a.readback)) == digest((b.reservation, b.readback)) {
      assert (a.reservation, a.readback) == (b.reservation, b.readback);
    }
  }

  // ---------------------------------------------------------------- what each command asks for

  /** A signed approval of exactly this command by a person, given at most 30 seconds ahead of the checking clock, not
      yet expired there, and for at most 15 minutes. */
  ghost predicate SignedFor(a: Approval, q: Request) {
    && a.reservation == q.reservation && a.commandHash == q.commandHash && a.signatureMatches
    && |a.operator| == 69 && a.operator[..5] == Word("user_")
    && (forall i :: 5 <= i < 69 ==> 48 <= a.operator[i] <= 57 || 97 <= a.operator[i] <= 102)
    && a.approvedAt.Some? && a.expiresAt.Some?
    && a.approvedAt.value <= q.checkedAt + 30_000 && q.checkedAt < a.expiresAt.value
    && a.expiresAt.value - a.approvedAt.value <= 900_000
  }

  lemma PersonExactly(operator: Text)
    ensures IsUser(operator) <==>
              && |operator| == 69 && operator[..5] == Word("user_")
              && forall i :: 5 <= i < 69 ==> 48 <= operator[i] <= 57 || 97 <= operator[i] <= 102
  {
    assert |USER| == 5;
    assert USER <= operator <==> |operator| >= 5 && operator[..5] == USER;
  }

  /** Nothing but a missing signed approval is refused as such, whatever else is wrong with the request. */
  lemma ApprovalExactly(t: Tables, names: Naming, q: Request)
    ensures Execute(t, names, q) == Err(ApprovalRefused) <==> !SignedFor(q.approval, q)
  {
    PersonExactly(q.approval.operator);
    hide IsUser, CampaignFits, CaseVersion;
  }

  /** The reserved command can run: unexpired, with the hash that was reserved, in the one class and mode that permits
      execution by approval. */
  ghost predicate Executable(t: Tables, q: Request) {
    && q.reservation in t.reservations
    && var r := t.reservations[q.reservation];
       && r.admission.Some? && r.commandHash == q.commandHash && r.effectClass == A1
       && r.approvalMode == PerCommandHuman && q.now < r.expiresAt
  }

  /** The target of an archive action, as it was when the action was prepared. */
  ghost predicate TargetStands(t: Tables, names: Naming, r: Reservation) {
    && r.preview.payload.Target?
    && var wanted := r.preview.payload;
       && wanted.receipt in t.actions
       && r.target.caseId in t.cases
       && r.expectedVersion == Word("commercial-case:") + r.target.caseId + Word(":v")
                               + NumberText.NatText(t.cases[r.target.caseId])
       && var a := t.actions[wanted.receipt];
          && a.target == r.target && a.campaign == r.preview.campaign
          && (a.tool == Task || a.tool == GmailDraft || a.tool == ProposalRevision)
          && a.objectVersion == wanted.version && names.digest(a.preview) == wanted.payloadHash
  }

  /** An archive action goes through exactly when its case is at the expected version and its target stands as it was;
      then the target is archived, once, and nothing else changes. */
  lemma ArchiveExactly(t: Tables, names: Naming, r: Reservation, now: int)
    ensures Archive(t, names, r, now).Ok? <==> TargetStands(t, names, r)
    ensures Archive(t, names, r, now).Ok? ==>
              var after, receipt := Archive(t, names, r, now).value, r.preview.payload.receipt;
              && after.reservations == t.reservations && after.cases == t.cases
              && after.actions == t.actions[receipt := t.actions[receipt].(
                   archivedAt := if t.actions[receipt].archivedAt.Some? then t.actions[receipt].archivedAt
                                 else Some(now))]
  {
    if r.target.caseId in t.cases {
      VersionText(r.target.caseId, t.cases[r.target.caseId]);
    }
    hide CaseVersion;
  }

  lemma VersionText(caseId: Text, version: nat)
    ensures CaseVersion(caseId, version) ==
            Word("commercial-case:") + caseId + Word(":v") + NumberText.NatText(version)
  {}

  /** The rows that an execution would write are new, and the campaign column takes the campaign: its prefix, a
      lower-case letter or digit, and 2 to 80 more of those or hyphens. */
  ghost predicate RowsAreFree(t: Tables, names: Naming, id: Text, r: Reservation) {
    && r.tool != RfqEmail
    && 16 < |r.preview.campaign| && r.preview.campaign[..16] == Word("sultan-campaign-")
    && 19 <= |r.preview.campaign| <= 97 && r.preview.campaign[16] != 45
    && (forall i :: 16 <= i < |r.preview.campaign| ==>
          var u := r.preview.campaign[i]; 97 <= u <= 122 || 48 <= u <= 57 || u == 45)
    && names.receipt(names.action(id)) !in t.actions
    && forall other <- t.actions :: t.actions[other].actionId != names.action(id)
  }

  lemma CampaignExactly(campaign: Text)
    ensures CampaignFits(campaign) <==>
              && 19 <= |campaign| <= 97 && campaign[..16] == Word("sultan-campaign-") && campaign[16] != 45
              && forall i :: 16 <= i < |campaign| ==>
                   97 <= campaign[i] <= 122 || 48 <= campaign[i] <= 57 || campaign[i] == 45
  {
    assert |CAMPAIGN| == 16;
    assert CAMPAIGN <= campaign <==> |campaign| >= 16 && campaign[..16] == CAMPAIGN;
  }

  lemma ReservationIsFree(t: Tables, names: Naming, id: Text, other: Text)
    requires Valid(t, names) && id in t.reservations && t.reservations[id].state == Prepared && other in t.actions
    ensures t.actions[other].reservation != id
  {
    assert ReservationValid(t, names, id) && ActionValid(t, other);
  }

  /** In valid tables a request is executed exactly when a signed approval covers it, the reserved command can still
      run, and it either was executed before or finds its rows free and, for an archive action, its target as it was. */
  lemma ExecuteExactly(t: Tables, names: Naming, q: Request)
    requires Valid(t, names)
    ensures Execute(t, names, q).Ok? <==>
              && SignedFor(q.approval, q) && Executable(t, q)
              && var r := t.reservations[q.reservation];
                 r.state == Executed
                 || (RowsAreFree(t, names, q.reservation, r) && (r.tool == ArchiveAction ==> TargetStands(t, names, r)))
  {
    hide Approved, Archive, CampaignFits, TargetStands, IsUser, Insert, SignedFor, RowsAreFree;
    ApprovalExactly(t, names, q);
    if Executable(t, q) {
      var id, r := q.reservation, t.reservations[q.reservation];
      assert ReservationValid(t, names, id);
      if r.state == Prepared {
        forall other <- t.actions ensures t.actions[other].reservation != id {
          ReservationIsFree(t, names, id, other);
        }
        hide Valid, ReservationValid;
        InsertsExactly(t, names, id, r, q.approval, q.now);
        InsertsAfterArchiving(t, names, id, r, q.approval, q.now);
      }
    }
  }

  lemma InsertsAfterArchiving(t: Tables, names: Naming, id: Text, r: Reservation, approval: Approval, now: int)
    requires id in t.reservations && forall other <- t.actions :: t.actions[other].reservation != id
    ensures Archive(t, names, r, now).Ok? <==> TargetStands(t, names, r)
    ensures Archive(t, names, r, now).Ok? ==>
              var u := Archive(t, names, r, now).value;
              id in u.reservations && (Insert(u, names, id, r, approval, now).Ok? <==> RowsAreFree(t, names, id, r))
  {
    ArchiveExactly(t, names, r, now);
    hide Archive, Insert;
    if Archive(t, names, r, now).Ok? {
      var u := Archive(t, names, r, now).value;
      assert forall other <- u.actions ::
               other in t.actions && u.actions[other].actionId == t.actions[other].actionId
               && u.actions[other].reservation == t.actions[other].reservation;
      assert forall other <- t.actions :: other in u.actions;
      InsertsExactly(u, names, id, r, approval, now);
    }
  }

  lemma InsertsExactly(t: Tables, names: Naming, id: Text, r: Reservation, approval: Approval, now: int)
    requires id in t.reservations && forall other <- t.actions :: t.actions[other].reservation != id
    ensures Insert(t, names, id, r, approval, now).Ok? <==> RowsAreFree(t, names, id, r)
  {
    CampaignExactly(r.preview.campaign);
    hide CampaignFits;
  }

  /** Preparing reserves exactly a new operation, or answers one that was reserved with the same hash. */
  lemma PrepareExactly(t: Tables, names: Naming, c: Command, now: int)
    ensures var id := names.reservation(c.operation);
            && (Prepare(t, names, c, now).Ok? <==>
                  id in t.reservations ==>
                    && t.reservations[id].operation == c.operation && t.reservations[id].commandHash == c.commandHash
                    && t.reservations[id].admission.Some?)
            && (Prepare(t, names, c, now).Ok? ==>
                  var after := Prepare(t, names, c, now).value;
                  && after.actions == t.actions && after.cases == t.cases
                  && (id in t.reservations ==> after.reservations == t.reservations)
                  && (id !in t.reservations ==> after.reservations == t.reservations[id := Reservation(
                        c.operation, Some(c.admission), c.tool, c.target, c.observedVersion, c.effectClass,
                        c.approvalMode, c.commandHash, c.preview, Prepared, None, now + 900_000, now)]))
  {}

  /** Step `i` of a run recorded this action: it executed a reserved command under a signed approval, which the action
      keeps. */
  ghost predicate RecordedAt(t: Tables, names: Naming, steps: seq<Step>, i: nat, receipt: Text, a: Action)
    requires i < |steps|
  {
    && steps[i].DoExecute?
    && var q, before := steps[i].request, Run(t, names, steps[..i]);
       && SignedFor(q.approval, q) && a.approval == q.approval && a.reservation == q.reservation
       && Executable(before, q) && before.reservations[q.reservation].state == Prepared
       && receipt !in before.actions && receipt in Next(before, names, steps[i]).actions
  }

  lemma {:induction false} RunSplits(t: Tables, names: Naming, steps: seq<Step>)
    requires steps != []
    ensures Run(t, names, steps)
         == Next(Run(t, names, steps[..|steps| - 1]), names, steps[|steps| - 1])
    decreases |steps|
  {
    hide Next;
    if |steps| > 1 {
      RunSplits(Next(t, names, steps[0]), names, steps[1..]);
      assert steps[1..][..|steps| - 2] == steps[..|steps| - 1][1..];
    } else {
      assert steps[..0] == [] && steps[1..] == [];
    }
  }

  lemma NewActions(t: Tables, names: Naming, s: Step, receipt: Text)
    requires receipt !in t.actions && receipt in Next(t, names, s).actions
    ensures s.DoExecute?
    ensures var a, q := Next(t, names, s).actions[receipt], s.request;
            && SignedFor(q.approval, q) && a.approval == q.approval && a.reservation == q.reservation
            && Executable(t, q) && t.reservations[q.reservation].state == Prepared
  {
    if s.DoExecute? {
      ApprovalExactly(t, names, s.request);
      hide SignedFor, Approved, CampaignFits, CaseVersion;
    }
  }

  /** Over every run, every action on record was recorded by one step of the run, under a signed approval that covered
      exactly this command at that time; a forged, foreign, stale or overlong approval never executes anything. */
  lemma {:induction false} ActionsWereSigned(names: Naming, steps: seq<Step>, receipt: Text) returns (i: nat)
    requires receipt in Run(EMPTY, names, steps).actions
    ensures i < |steps|
    ensures RecordedAt(EMPTY, names, steps, i, receipt, Run(EMPTY, names, steps).actions[receipt])
    decreases |steps|
  {
    hide Next, SignedFor, Executable;
    var last := |steps| - 1;
    var before := Run(EMPTY, names, steps[..last]);
    RunSplits(EMPTY, names, steps);
    if receipt in before.actions {
      i := ActionsWereSigned(names, steps[..last], receipt);
      assert steps[..last][..i] == steps[..i];
      NextExtends(before, names, steps[last]);
    } else {
      NewActions(before, names, steps[last], receipt);
      i := last;
    }
  }
}
