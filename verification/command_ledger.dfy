/** The command ledger: what one call of the lifecycle command kernel does to the receipt, event, outbox,
    conflict and owner tables, and what holds of every run of calls. */
module CommandLedger {
  import opened Wrappers
  import opened Texts
  import JsonValues
  import CanonicalJson

  // ---------------------------------------------------------------- requests

  datatype Delivery = Delivery(destination: Text, externalEffect: bool, authorized: bool, maxAttempts: int)

  datatype Request = Request(
    tenant: Text, key: Text, command: Text, correlation: Text, actor: Text,
    ownerProject: Text, objectType: Text, objectId: Text, expectedVersion: Text, policyVersion: Text,
    requestedAtIsTimestamp: bool, hash: Text, delivery: Option<Delivery>)

  /** A request carries the digest of the canonical text of its payload. */
  function CreateRequest(draft: Request, payload: JsonValues.Json, digest: Text -> Text): Option<Request>
    requires JsonValues.Valid(payload)
  {
    if Blank(draft.command) || Blank(draft.key) || Blank(draft.correlation)
       || Blank(draft.expectedVersion) || Blank(draft.policyVersion) then None
    else
      var text := CanonicalJson.Canonical(payload);
      if text.None? then None else Some(draft.(hash := digest(text.value)))
  }

  /** A request is created exactly for a sendable payload with a command, a key, a correlation, an expected version and
      a policy version; its hash is the digest of the payload's canonical text, and the rest is the draft's. */
  lemma CreateRequestExactly(draft: Request, payload: JsonValues.Json, digest: Text -> Text)
    requires JsonValues.Valid(payload)
    ensures var r := CreateRequest(draft, payload, digest);
            && (r.Some? <==> && JsonValues.Supported(payload) && !Blank(draft.command) && !Blank(draft.key)
                             && !Blank(draft.correlation) && !Blank(draft.expectedVersion)
                             && !Blank(draft.policyVersion))
            && (r.Some? ==> && r.value.hash == digest(CanonicalJson.Canonical(payload).value)
                            && r.value.(hash := draft.hash) == draft)
  {
    hide Blank;
  }

  // ---------------------------------------------------------------- tables

  datatype Receipt = Receipt(
    tenant: Text, key: Text, receiptId: Text, command: Text, hash: Text, version: Text,
    eventId: Text, outboxId: Text, confirmed: bool)

  datatype EventRow = EventRow(tenant: Text, eventId: Text, key: Text, command: Text, version: Text)

  datatype OutboxRow = OutboxRow(
    tenant: Text, outboxId: Text, receiptId: Text, eventId: Text, destination: Text, key: Text, maxAttempts: int)

  datatype Conflict = Conflict(
    tenant: Text, conflictId: Text, command: Text, key: Text, existing: Text, received: Text)

  /** One committed owner mutation: for whom, and the owner tables before and after it. */
  datatype Mutation<O> = Mutation(tenant: Text, key: Text, before: O, after: O)

  /** All tables, rows in the order of insertion; `history` is the log of the owner mutations that committed. */
  datatype Tables<O> = Tables(
    receipts: seq<Receipt>, events: seq<EventRow>, outbox: seq<OutboxRow>, conflicts: seq<Conflict>,
    owner: O, history: seq<Mutation<O>>)

  function Empty<O>(owner: O): Tables<O> { Tables([], [], [], [], owner, []) }

  /** Identifiers drawn at random; nothing says that they are new. */
  datatype Ids = Ids(receipt: Text, event: Text, outbox: Text, conflict: Text)

  /** What the owner's code returns: an error it threw, or its tables and the version it read back. */
  datatype Owned<O> = Owned(owner: O, version: Text)

  datatype Call<!O> = Call(request: Request, mutate: O -> Option<Owned<O>>, ids: Ids)

  datatype Outcome = Accepted(receipt: Receipt) | Replayed(receipt: Receipt) | Conflicted(conflict: Conflict) | Failed

  // ---------------------------------------------------------------- one call

  /** The row of the receipt under a key, or the number of rows. */
  function RowOf(receipts: seq<Receipt>, tenant: Text, key: Text): (i: nat)
    ensures i <= |receipts|
    ensures i < |receipts| ==> receipts[i].tenant == tenant && receipts[i].key == key
    ensures forall j :: 0 <= j < i ==> !(receipts[j].tenant == tenant && receipts[j].key == key)
  {
    if receipts == [] || (receipts[0].tenant == tenant && receipts[0].key == key) then 0
    else 1 + RowOf(receipts[1..], tenant, key)
  }

  const INTERNAL_WORKFLOW: Text :=
    Word("INTERNAL_WORKFLOW")

  function DeliveryOf(r: Request): Delivery {
    if r.delivery.Some? then r.delivery.value else Delivery(INTERNAL_WORKFLOW, false, false, 5)
  }

  predicate EnvelopeAccepts(r: Request, version: Text) {
    && !Blank(r.tenant) && !Blank(r.actor) && !Blank(r.correlation) && !Blank(r.key)
    && r.requestedAtIsTimestamp
    && !Blank(r.ownerProject) && !Blank(r.objectType) && !Blank(r.objectId) && !Blank(version)
  }

  function ReceiptFor(r: Request, version: Text, ids: Ids): Receipt {
    Receipt(r.tenant, r.key, ids.receipt, r.command, r.hash, version, ids.event, ids.outbox, false)
  }

  function EventFor(r: Request, version: Text, ids: Ids): EventRow {
    EventRow(r.tenant, ids.event, r.key, r.command, version)
  }

  function OutboxFor(r: Request, ids: Ids): OutboxRow {
    OutboxRow(r.tenant, ids.outbox, ids.receipt, ids.event, DeliveryOf(r).destination, r.key,
              DeliveryOf(r).maxAttempts)
  }

  function ConflictFor(r: Request, existing: Receipt, ids: Ids): Conflict {
    Conflict(r.tenant, ids.conflict, r.command, r.key, existing.hash, r.hash)
  }

  // The primary and unique keys of the four tables.

  predicate ReceiptFits(rows: seq<Receipt>, row: Receipt) {
    forall i :: 0 <= i < |rows| && rows[i].tenant == row.tenant ==>
      rows[i].receiptId != row.receiptId && rows[i].command != row.command && rows[i].key != row.key
  }

  predicate EventFits(rows: seq<EventRow>, row: EventRow) {
    forall i :: 0 <= i < |rows| && rows[i].tenant == row.tenant ==>
      rows[i].eventId != row.eventId && rows[i].key != row.key
  }

  predicate OutboxFits(rows: seq<OutboxRow>, row: OutboxRow) {
    forall i :: 0 <= i < |rows| && rows[i].tenant == row.tenant ==>
      && rows[i].outboxId != row.outboxId && rows[i].receiptId != row.receiptId
      && !(rows[i].destination == row.destination && rows[i].key == row.key)
  }

  predicate ConflictFits(rows: seq<Conflict>, row: Conflict) {
    forall i :: 0 <= i < |rows| && rows[i].tenant == row.tenant ==> rows[i].conflictId != row.conflictId
  }

  predicate PlanFits(d: Delivery) { 1 <= d.maxAttempts <= 20 && (d.externalEffect ==> d.authorized) }

  /** One call, from beginning its transaction to committing it or rolling it back. */
  function Execute<O>(t: Tables<O>, c: Call<O>): (Tables<O>, Outcome) {
    var r := c.request;
    var i := RowOf(t.receipts, r.tenant, r.key);
    if i < |t.receipts| then
      if t.receipts[i].hash == r.hash then (t, Replayed(t.receipts[i]))
      else
        var conflict := ConflictFor(r, t.receipts[i], c.ids);
        if ConflictFits(t.conflicts, conflict) then (t.(conflicts := t.conflicts + [conflict]), Conflicted(conflict))
        else (t, Failed)
    else
      var owned := c.mutate(t.owner);
      if owned.None? || !EnvelopeAccepts(r, owned.value.version) then (t, Failed)
      else
        var version := owned.value.version;
        var receipt, event, message := ReceiptFor(r, version, c.ids), EventFor(r, version, c.ids), OutboxFor(r, c.ids);
        if ReceiptFits(t.receipts, receipt) && EventFits(t.events, event) && OutboxFits(t.outbox, message)
           && PlanFits(DeliveryOf(r)) then
          (Tables(t.receipts + [receipt], t.events + [event], t.outbox + [message], t.conflicts, owned.value.owner,
                  t.history + [Mutation(r.tenant, r.key, t.owner, owned.value.owner)]),
           Accepted(receipt))
        else (t, Failed)
  }

  /** A row with this value in a column already exists for the tenant. */
  predicate KeyTaken<O>(t: Tables<O>, tenant: Text, key: Text) {
    exists i :: 0 <= i < |t.receipts| && t.receipts[i].tenant == tenant && t.receipts[i].key == key
  }

  /** A call is accepted exactly under a key without receipt, when the owner's mutation succeeds and reads back a
      version, the envelope is complete, no other row of the tenant has the ids, the command or the key, and the
      delivery plan is permitted: 1 to 20 attempts, an external effect only when authorized.  Then one row goes to each
      table, all with the request's tenant, key and hash, the delivery goes where the request said or else to the
      internal workflow in five attempts, and the owner's tables become what the mutation made of them. */
  lemma AcceptedExactly<O>(t: Tables<O>, c: Call<O>)
    ensures var r := c.request;
            var plan := if r.delivery.Some? then r.delivery.value
                        else Delivery(Word("INTERNAL_WORKFLOW"), false, false, 5);
            var (after, outcome) := Execute(t, c);
            && (outcome.Accepted? <==>
                  && !KeyTaken(t, r.tenant, r.key)
                  && c.mutate(t.owner).Some? && !Blank(c.mutate(t.owner).value.version)
                  && !Blank(r.tenant) && !Blank(r.actor) && !Blank(r.correlation) && !Blank(r.key)
                  && !Blank(r.ownerProject) && !Blank(r.objectType) && !Blank(r.objectId) && r.requestedAtIsTimestamp
                  && (forall i :: 0 <= i < |t.receipts| && t.receipts[i].tenant == r.tenant ==>
                        t.receipts[i].receiptId != c.ids.receipt && t.receipts[i].command != r.command)
                  && (forall i :: 0 <= i < |t.events| && t.events[i].tenant == r.tenant ==>
                        t.events[i].eventId != c.ids.event && t.events[i].key != r.key)
                  && (forall i :: 0 <= i < |t.outbox| && t.outbox[i].tenant == r.tenant ==>
                        && t.outbox[i].outboxId != c.ids.outbox && t.outbox[i].receiptId != c.ids.receipt
                        && (t.outbox[i].destination != plan.destination || t.outbox[i].key != r.key))
                  && 1 <= plan.maxAttempts <= 20 && (plan.externalEffect ==> plan.authorized))
            && (outcome.Accepted? ==>
                  var owned := c.mutate(t.owner).value;
                  && outcome.receipt == Receipt(r.tenant, r.key, c.ids.receipt, r.command, r.hash, owned.version,
                                                c.ids.event, c.ids.outbox, false)
                  && after == t.(
                       receipts := t.receipts + [outcome.receipt],
                       events := t.events + [EventRow(r.tenant, c.ids.event, r.key, r.command, owned.version)],
                       outbox := t.outbox + [OutboxRow(r.tenant, c.ids.outbox, c.ids.receipt, c.ids.event,
                                                       plan.destination, r.key, plan.maxAttempts)],
                       owner := owned.owner, history := t.history + [Mutation(r.tenant, r.key, t.owner, owned.owner)]))
  {
    hide Blank;
  }

  /** A key with a receipt never runs the owner again: the same hash is answered with the receipt, another hash is
      recorded as a conflict of the two, and neither touches anything else. */
  lemma RepeatedExactly<O>(t: Tables<O>, c: Call<O>, i: nat)
    requires i < |t.receipts| && t.receipts[i].tenant == c.request.tenant && t.receipts[i].key == c.request.key
    requires forall j :: 0 <= j < i ==> t.receipts[j].tenant != c.request.tenant || t.receipts[j].key != c.request.key
    ensures var r, (after, outcome) := c.request, Execute(t, c);
            && (outcome.Replayed? <==> t.receipts[i].hash == r.hash)
            && (outcome.Replayed? ==> outcome.receipt == t.receipts[i] && after == t)
            && (!outcome.Replayed? ==>
                  var conflict := Conflict(r.tenant, c.ids.conflict, r.command, r.key, t.receipts[i].hash, r.hash);
                  if exists j :: 0 <= j < |t.conflicts| && t.conflicts[j].tenant == r.tenant
                                 && t.conflicts[j].conflictId == c.ids.conflict
                  then outcome.Failed? && after == t
                  else outcome == Conflicted(conflict) && after == t.(conflicts := t.conflicts + [conflict]))
  {}

  // ---------------------------------------------------------------- runs

  /** A call, or the delivery store confirming the source of row `index`. */
  datatype Action<!O> = Submit(call: Call<O>) | Confirm(index: nat)

  function Confirmed<O>(t: Tables<O>, index: nat): Tables<O> {
    if index < |t.receipts| then t.(receipts := t.receipts[index := t.receipts[index].(confirmed := true)]) else t
  }

  function Step<O>(t: Tables<O>, a: Action<O>): Tables<O> {
    match a
    case Submit(call) => Execute(t, call).0
    case Confirm(index) => Confirmed(t, index)
  }

  function Run<O>(t: Tables<O>, actions: seq<Action<O>>): Tables<O>
    decreases |actions|
  {
    if actions == [] then t else Run(Step(t, actions[0]), actions[1..])
  }

  /** Row i of the receipt, event and outbox tables and of the log belong together. */
  ghost predicate RowsMatch<O>(t: Tables<O>, i: nat)
    requires |t.receipts| == |t.events| == |t.outbox| == |t.history| && i < |t.receipts|
  {
    var r, e, m, h := t.receipts[i], t.events[i], t.outbox[i], t.history[i];
    && r.tenant == e.tenant == m.tenant == h.tenant
    && r.key == e.key == m.key == h.key
    && r.eventId == e.eventId == m.eventId
    && r.receiptId == m.receiptId && r.outboxId == m.outboxId
    && r.command == e.command && r.version == e.version
  }

  /** No two receipts of a tenant share a key, a command or an id. */
  ghost predicate Distinct(rows: seq<Receipt>) {
    forall i, j :: 0 <= i < j < |rows| && rows[i].tenant == rows[j].tenant ==>
      rows[i].receiptId != rows[j].receiptId && rows[i].command != rows[j].command && rows[i].key != rows[j].key
  }

  /** The log starts at the first owner state, ends at the present one and has no gap. */
  ghost predicate Chained<O>(first: O, history: seq<Mutation<O>>, last: O) {
    if history == [] then first == last
    else history[|history| - 1].after == last && Chained(first, history[..|history| - 1], history[|history| - 1].before)
  }

  ghost predicate Consistent<O>(first: O, t: Tables<O>) {
    && |t.receipts| == |t.events| == |t.outbox| == |t.history|
    && (forall i :: 0 <= i < |t.receipts| ==> RowsMatch(t, i))
    && Distinct(t.receipts)
    && Chained(first, t.history, t.owner)
    && (forall i :: 0 <= i < |t.conflicts| ==> t.conflicts[i].existing != t.conflicts[i].received)
  }

  lemma EmptyIsConsistent<O>(owner: O)
    ensures Consistent(owner, Empty(owner))
  {}

  lemma ExecuteKeepsConsistent<O>(first: O, t: Tables<O>, c: Call<O>)
    requires Consistent(first, t)
    ensures Consistent(first, Execute(t, c).0)
  {
    var u := Execute(t, c).0;
    forall i | 0 <= i < |u.receipts| ensures RowsMatch(u, i) {
      if i < |t.receipts| {
        assert RowsMatch(t, i);
      }
    }
    if |u.receipts| > |t.receipts| {
      assert u.history[..|u.history| - 1] == t.history;
    }
  }

  lemma ConfirmKeepsConsistent<O>(first: O, t: Tables<O>, index: nat)
    requires Consistent(first, t)
    ensures Consistent(first, Confirmed(t, index))
  {
    var u := Confirmed(t, index);
    forall i | 0 <= i < |u.receipts| ensures RowsMatch(u, i) {
      assert RowsMatch(t, i);
    }
  }

  /** Receipts, events, outbox rows and owner mutations stay in one-to-one correspondence over every run, with
      at most one of each for a tenant and idempotency key. */
  lemma {:induction false} RunKeepsConsistent<O>(first: O, t: Tables<O>, actions: seq<Action<O>>)
    requires Consistent(first, t)
    ensures Consistent(first, Run(t, actions))
    decreases |actions|
  {
    hide Consistent, Execute, Confirmed;
    if actions != [] {
      match actions[0] {
        case Submit(call) => ExecuteKeepsConsistent(first, t, call);
        case Confirm(index) => ConfirmKeepsConsistent(first, t, index);
      }
      RunKeepsConsistent(first, Step(t, actions[0]), actions[1..]);
    }
  }

  // ---------------------------------------------------------------- replays

  /** Receipt `i` is still there, with everything but its confirmation as it was. */
  ghost predicate Keeps<O>(t: Tables<O>, u: Tables<O>, i: nat) {
    && i < |t.receipts| <= |u.receipts|
    && u.receipts[i].(confirmed := t.receipts[i].confirmed) == t.receipts[i]
  }

  lemma StepKeepsReceipt<O>(t: Tables<O>, a: Action<O>, i: nat)
    requires i < |t.receipts|
    ensures Keeps(t, Step(t, a), i)
  {}

  lemma {:induction false} RunKeepsReceipt<O>(t: Tables<O>, actions: seq<Action<O>>, i: nat)
    requires i < |t.receipts|
    ensures Keeps(t, Run(t, actions), i)
    decreases |actions|
  {
    hide Step;
    if actions != [] {
      StepKeepsReceipt(t, actions[0], i);
      RunKeepsReceipt(Step(t, actions[0]), actions[1..], i);
    }
  }

  lemma RowOfReceipt(rows: seq<Receipt>, i: nat)
    requires i < |rows| && Distinct(rows)
    ensures RowOf(rows, rows[i].tenant, rows[i].key) == i
  {}

  /** Once a call has been accepted, no later call under its key runs the owner again, whatever happened in
      between: the same payload is answered with the original receipt and changes nothing, and another payload
      adds one conflict record and changes nothing else. */
  lemma AcceptedOnce<O>(first: O, t: Tables<O>, c: Call<O>, between: seq<Action<O>>, again: Call<O>)
    requires Consistent(first, t) && Execute(t, c).1.Accepted?
    requires again.request.tenant == c.request.tenant && again.request.key == c.request.key
    ensures var receipt := Execute(t, c).1.receipt;
            var now := Run(Execute(t, c).0, between);
            var (after, outcome) := Execute(now, again);
            if again.request.hash == c.request.hash then
              after == now && outcome.Replayed? && outcome.receipt.(confirmed := false) == receipt
            else
              || (after == now && outcome == Failed)
              || (outcome == Conflicted(ConflictFor(again.request, receipt, again.ids))
                  && after == now.(conflicts := now.conflicts + [outcome.conflict]))
  {
    var u := Execute(t, c).0;
    var i := |t.receipts|;
    var now := Run(u, between);
    ExecuteKeepsConsistent(first, t, c);
    RunKeepsConsistent(first, u, between);
    RunKeepsReceipt(u, between, i);
    RowOfReceipt(now.receipts, i);
  }

  /** A conflict goes unrecorded only when its random id is already taken. */
  lemma ConflictIsRecorded<O>(t: Tables<O>, c: Call<O>)
    requires RowOf(t.receipts, c.request.tenant, c.request.key) < |t.receipts|
    requires t.receipts[RowOf(t.receipts, c.request.tenant, c.request.key)].hash != c.request.hash
    requires forall i :: 0 <= i < |t.conflicts| ==> t.conflicts[i].conflictId != c.ids.conflict
    ensures Execute(t, c).1.Conflicted?
  {}

  function Accepts<O>(t: Tables<O>, actions: seq<Action<O>>, tenant: Text, key: Text): nat
    decreases |actions|
  {
    if actions == [] then 0
    else
      (if actions[0].Submit? && Execute(t, actions[0].call).1.Accepted?
          && actions[0].call.request.tenant == tenant && actions[0].call.request.key == key then 1 else 0)
      + Accepts(Step(t, actions[0]), actions[1..], tenant, key)
  }

  function Mutations<O>(history: seq<Mutation<O>>, tenant: Text, key: Text): nat {
    if history == [] then 0
    else
      Mutations(history[..|history| - 1], tenant, key)
      + (if history[|history| - 1].tenant == tenant && history[|history| - 1].key == key then 1 else 0)
  }

  lemma StepCounts<O>(t: Tables<O>, a: Action<O>, tenant: Text, key: Text)
    ensures Mutations(Step(t, a).history, tenant, key)
         == Mutations(t.history, tenant, key)
            + (if a.Submit? && Execute(t, a.call).1.Accepted? && a.call.request.tenant == tenant
                  && a.call.request.key == key then 1 else 0)
  {
    var u := Step(t, a);
    if u.history != t.history {
      assert u.history[..|u.history| - 1] == t.history;
    }
  }

  /** The owner mutations under a key are exactly the accepted calls under it. */
  lemma {:induction false} MutationsAreAccepts<O>(t: Tables<O>, actions: seq<Action<O>>, tenant: Text, key: Text)
    ensures Mutations(Run(t, actions).history, tenant, key)
         == Mutations(t.history, tenant, key) + Accepts(t, actions, tenant, key)
    decreases |actions|
  {
    if actions != [] {
      StepCounts(t, actions[0], tenant, key);
      MutationsAreAccepts(Step(t, actions[0]), actions[1..], tenant, key);
    }
  }

  lemma {:induction false} MutationsAtMostOne<O>(history: seq<Mutation<O>>, tenant: Text, key: Text)
    requires forall i, j :: 0 <= i < j < |history| && history[i].tenant == history[j].tenant ==>
               history[i].key != history[j].key
    ensures Mutations(history, tenant, key) <= 1
    ensures Mutations(history, tenant, key) == 0 <==>
            forall i :: 0 <= i < |history| ==> !(history[i].tenant == tenant && history[i].key == key)
  {
    if history != [] {
      var init := history[..|history| - 1];
      MutationsAtMostOne(init, tenant, key);
      assert forall i :: 0 <= i < |init| ==> init[i] == history[i];
    }
  }

  /** From empty tables, a key is accepted at most once, however many calls, failures and replays there are. */
  lemma AtMostOneAccept<O>(owner: O, actions: seq<Action<O>>, tenant: Text, key: Text)
    ensures Accepts(Empty(owner), actions, tenant, key) <= 1
  {
    var t := Run(Empty(owner), actions);
    EmptyIsConsistent(owner);
    RunKeepsConsistent(owner, Empty(owner), actions);
    MutationsAreAccepts(Empty(owner), actions, tenant, key);
    forall i, j | 0 <= i < j < |t.history| && t.history[i].tenant == t.history[j].tenant
      ensures t.history[i].key != t.history[j].key
    {
      assert RowsMatch(t, i) && RowsMatch(t, j);
    }
    MutationsAtMostOne(t.history, tenant, key);
  }

  /** What every owner mutation keeps, every run keeps: the owner tables change by accepted mutations only. */
  lemma {:induction false} OwnerKeeps<O(!new)>(p: O -> bool, t: Tables<O>, actions: seq<Action<O>>)
    requires p(t.owner)
    requires forall a <- actions :: a.Submit? ==>
               forall o :: p(o) && a.call.mutate(o).Some? ==> p(a.call.mutate(o).value.owner)
    ensures p(Run(t, actions).owner)
    decreases |actions|
  {
    if actions != [] {
      var rest := actions[1..];
      assert actions[0] in actions && forall a <- rest :: a in actions;
      OwnerKeeps(p, Step(t, actions[0]), rest);
    }
  }

  /** With a collision-free digest, a replay means that the payloads agree up to key order. */
  lemma ReplayMeansSamePayload(digest: Text -> Text, a: Request, p: JsonValues.Json, b: Request, q: JsonValues.Json)
    requires JsonValues.Valid(p) && JsonValues.Valid(q)
    requires forall s, t :: digest(s) == digest(t) ==> s == t
    requires CreateRequest(a, p, digest).Some? && CreateRequest(b, q, digest).Some?
    ensures CreateRequest(a, p, digest).value.hash == CreateRequest(b, q, digest).value.hash
       <==> JsonValues.Same(JsonValues.Content(p), JsonValues.Content(q))
  {
    CanonicalJson.HashExactly(digest, p, q);
  }
}
