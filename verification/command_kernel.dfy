/** The kernel and its store as they run: a transaction works on its own copy of the tables, statement by
    statement, and the copy becomes the tables only on commit. */
module CommandKernel {
  import opened Wrappers
  import opened Texts
  import opened CommandLedger

  /** An open transaction: its working tables and the tenant it is bound to, empty while unbound. */
  class CommandTransaction<O> {
    var work: Tables<O>
    var tenantId: Text

    constructor (tables: Tables<O>)
      ensures work == tables && tenantId == []
    {
      work, tenantId := tables, [];
    }

    /** A transaction serves the first tenant that it is given and refuses every other. */
    method BindTenant(tenant: Text) returns (ok: bool)
      modifies this`tenantId
      ensures ok <==> old(tenantId) == [] || old(tenantId) == tenant
      ensures tenantId == if ok then tenant else old(tenantId)
    {
      if tenantId != [] && tenantId != tenant {
        return false;
      }
      if tenantId == [] {
        tenantId := tenant;
      }
      return true;
    }

    method FindReceipt(tenant: Text, key: Text) returns (ok: bool, found: Option<Receipt>)
      modifies this`tenantId
      ensures ok <==> old(tenantId) == [] || old(tenantId) == tenant
      ensures tenantId == if ok then tenant else old(tenantId)
      ensures ok ==> found == (var i := RowOf(work.receipts, tenant, key);
                               if i < |work.receipts| then Some(work.receipts[i]) else None)
    {
      ok := BindTenant(tenant);
      found := None;
      if ok {
        var i := RowOf(work.receipts, tenant, key);
        if i < |work.receipts| {
          found := Some(work.receipts[i]);
        }
      }
    }

    /** Three inserts; a unique key or check that refuses one leaves the earlier ones to the rollback. */
    method InsertAccepted(receipt: Receipt, event: EventRow, message: OutboxRow, plan: Delivery) returns (ok: bool)
      modifies this
      ensures ok <==>
        && (old(tenantId) == [] || old(tenantId) == receipt.tenant)
        && ReceiptFits(old(work).receipts, receipt) && EventFits(old(work).events, event)
        && OutboxFits(old(work).outbox, message) && PlanFits(plan)
      ensures ok ==> work == old(work).(
        receipts := old(work).receipts + [receipt], events := old(work).events + [event],
        outbox := old(work).outbox + [message])
    {
      ok := BindTenant(receipt.tenant);
      if !ok {
        return;
      }
      if !ReceiptFits(work.receipts, receipt) {
        return false;
      }
      work := work.(receipts := work.receipts + [receipt]);
      if !EventFits(work.events, event) {
        return false;
      }
      work := work.(events := work.events + [event]);
      if !OutboxFits(work.outbox, message) || !PlanFits(plan) {
        return false;
      }
      work := work.(outbox := work.outbox + [message]);
    }
  }

  class LifecycleCommandKernel<O> {
    var tables: Tables<O>

    constructor (owner: O)
      ensures tables == Empty(owner)
    {
      tables := Empty(owner);
    }

    /** The body of the transaction: on `Conflicted` and `Failed` the caller rolls back. */
    method InTransaction(tx: CommandTransaction<O>, c: Call<O>) returns (outcome: Outcome)
      requires tx.tenantId == []
      modifies tx
      ensures var (after, expected) := Execute(old(tx.work), c);
              match outcome
              case Conflicted(conflict) =>
                if ConflictFits(old(tx.work).conflicts, conflict) then
                  expected == outcome && after == old(tx.work).(conflicts := old(tx.work).conflicts + [conflict])
                else expected.Failed? && after == old(tx.work)
              case Failed => expected.Failed? && after == old(tx.work)
              case _ => outcome == expected && tx.work == after
    {
      var r := c.request;
      var bound, existing := tx.FindReceipt(r.tenant, r.key);
      if existing.Some? {
        if existing.value.hash != r.hash {
          return Conflicted(ConflictFor(r, existing.value, c.ids));
        }
        return Replayed(existing.value);
      }
      var owned := c.mutate(tx.work.owner);
      if owned.None? {
        return Failed;
      }
      tx.work := tx.work.(owner := owned.value.owner,
                          history := tx.work.history + [Mutation(r.tenant, r.key, tx.work.owner, owned.value.owner)]);
      var version := owned.value.version;
      if Blank(version) || !EnvelopeAccepts(r, version) {
        return Failed;
      }
      var receipt := ReceiptFor(r, version, c.ids);
      var ok := tx.InsertAccepted(receipt, EventFor(r, version, c.ids), OutboxFor(r, c.ids), DeliveryOf(r));
      if !ok {
        return Failed;
      }
      return Accepted(receipt);
    }

    /** A conflict is recorded in a transaction of its own, after the first has been rolled back. */
    method RecordConflict(conflict: Conflict) returns (ok: bool)
      modifies this
      ensures ok <==> ConflictFits(old(tables).conflicts, conflict)
      ensures tables == if ok then old(tables).(conflicts := old(tables).conflicts + [conflict]) else old(tables)
    {
      ok := ConflictFits(tables.conflicts, conflict);
      if ok {
        tables := tables.(conflicts := tables.conflicts + [conflict]);
      }
    }

    method Submit(c: Call<O>) returns (outcome: Outcome)
      modifies this
      ensures (tables, outcome) == Execute(old(tables), c)
    {
      var tx := new CommandTransaction<O>(tables);
      outcome := InTransaction(tx, c);
      if outcome.Conflicted? {
        var ok := RecordConflict(outcome.conflict);
        if !ok {
          outcome := Failed;
        }
      } else if !outcome.Failed? {
        tables := tx.work;
      }
    }
  }
}
