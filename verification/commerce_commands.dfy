/** Quote, order and intent commands as they are really executed: as owner mutations of the command kernel. */
module CommerceCommands {
  import opened Wrappers
  import opened Texts
  import opened OrderConversion
  import L = CommandLedger

  /** The owner's part of a commerce command: the step, and the version that it reads back. */
  function Mutate(step: Step, version: Commerce -> Text): Commerce -> Option<L.Owned<Commerce>> {
    db => var after := Attempt(db, step);
          if after.Ok? then Some(L.Owned(after.value, version(after.value))) else None
  }

  /** A call that runs one parsed commerce command. */
  ghost predicate IsCommerce(call: L.Call<Commerce>, step: Step) {
    WellFormed(step) && exists version: Commerce -> Text :: call.mutate == Mutate(step, version)
  }

  ghost predicate AllCommerce(actions: seq<L.Action<Commerce>>) {
    forall a <- actions :: a.Submit? ==> exists step :: IsCommerce(a.call, step)
  }

  lemma CommerceKeepsValid(call: L.Call<Commerce>, step: Step, db: Commerce)
    requires IsCommerce(call, step) && Valid(db) && call.mutate(db).Some?
    ensures Valid(call.mutate(db).value.owner)
  {
    hide Valid, WellFormed, Attempt;
    var version: Commerce -> Text :| call.mutate == Mutate(step, version);
    NextKeepsValid(db, step);
  }

  /** Over every run of the ledger, with replays, conflicts, failures and rollbacks anywhere, the commerce tables stay
      valid: an order has its quote's total, and a quote has one order at most. */
  lemma LedgerKeepsCommerce(actions: seq<L.Action<Commerce>>, a: Text, b: Text)
    requires AllCommerce(actions)
    ensures var db := L.Run(L.Empty(NO_COMMERCE), actions).owner;
            && Valid(db)
            && (a in db.orders && b in db.orders && db.orders[a].quote == db.orders[b].quote ==> a == b)
  {
    var p := (db: Commerce) => Valid(db);
    forall action | action in actions && action.Submit?
      ensures forall db :: p(db) && action.call.mutate(db).Some? ==> p(action.call.mutate(db).value.owner)
    {
      var step :| IsCommerce(action.call, step);
      forall db | Valid(db) && action.call.mutate(db).Some? ensures Valid(action.call.mutate(db).value.owner) {
        CommerceKeepsValid(action.call, step, db);
      }
    }
    assert Valid(NO_COMMERCE);
    L.OwnerKeeps(p, L.Empty(NO_COMMERCE), actions);
    var db := L.Run(L.Empty(NO_COMMERCE), actions).owner;
    if a in db.orders && b in db.orders && db.orders[a].quote == db.orders[b].quote {
      assert OrderValid(db, a) && OrderValid(db, b);
    }
  }
}
