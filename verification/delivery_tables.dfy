/** The batch operations of the delivery store as functions of the whole tenant's table contents. */
module DeliveryTables {
  import opened Wrappers
  import opened Texts
  import opened DeliveryRules
  import opened DeliverySafety
  import opened DueSelection

  type Db = map<Text, Delivery>

  /** An active kill switch; scopes other than these two do not stop deliveries. */
  datatype Switch = GlobalSwitch | DestinationSwitch(destination: Text) | OtherSwitch(ref: Text)

  predicate SwitchedOff(switches: set<Switch>, destination: Text) {
    GlobalSwitch in switches || DestinationSwitch(destination) in switches
  }

  function BoundedLimit(limit: Option<int>): nat {
    if limit.None? then 10 else if limit.value < 1 then 1 else if limit.value > 50 then 50 else limit.value
  }

  ghost predicate AllValid(db: Db) { forall m :: m in db ==> Inv(db[m]) }

  /** One accepted step on one message, or the error that leaves everything unchanged. */
  function Stepped(db: Db, id: Text, e: Event, now: int, missing: StoreError): Result<Db, StoreError> {
    if InputError(e).Some? then Err(InputError(e).value)
    else if id !in db then Err(missing)
    else match Apply(db[id], e, now)
         case Ok(after) => Ok(db[id := after])
         case Err(error) => Err(error)
  }

  // ---------------------------------------------------------------- claiming deliveries

  /** A row another transaction has locked is skipped. */
  function Swept(d: Delivery, now: int, skip: bool): Delivery {
    if Expired(d, now) && !skip then Reclaimed(d, now) else d
  }

  function SweptDb(db: Db, now: int, locked: set<Text>): Db {
    map m | m in db :: Swept(db[m], now, m in locked)
  }

  function DueDeliveries(db: Db, now: int, locked: set<Text>, switches: set<Switch>): map<Text, Turn> {
    map m | m in db && m !in locked && Due(db[m], now) && !SwitchedOff(switches, db[m].message.destination)
      :: Turn(db[m].message.notBefore, db[m].message.createdAt)
  }

  function ClaimedDb(db: Db, worker: Text, now: int, claimed: seq<Text>): Db {
    map m | m in db :: if m in claimed then ClaimedBy(db[m], worker, now) else db[m]
  }

  // ---------------------------------------------------------------- claiming reconciliations

  function CheckSwept(d: Delivery, now: int): Delivery {
    d.(checkpoints := map n | n in d.checkpoints ::
         if CheckLeaseExpired(d, n, now) then d.checkpoints[n].(lease := None, nextCheckAt := now)
         else d.checkpoints[n])
  }

  function CheckSweptDb(db: Db, now: int): Db {
    map m | m in db :: CheckSwept(db[m], now)
  }

  function DueChecks(db: Db, now: int, locked: set<(Text, nat)>): map<(Text, nat), Turn> {
    map m, n | m in db && n in db[m].checkpoints && (m, n) !in locked && CheckDue(db[m], n, now)
      :: (m, n) := Turn(db[m].checkpoints[n].nextCheckAt, db[m].checkpoints[n].checkedAt)
  }

  function ChecksTaken(d: Delivery, id: Text, worker: Text, now: int, claimed: seq<(Text, nat)>): Delivery {
    d.(checkpoints := map n | n in d.checkpoints ::
         if (id, n) in claimed
         then d.checkpoints[n].(lease := Some(CheckLease(worker, now, now + WORKER_LEASE_MS)),
                                attemptCount := d.checkpoints[n].attemptCount + 1)
         else d.checkpoints[n])
  }

  function ChecksTakenDb(db: Db, worker: Text, now: int, claimed: seq<(Text, nat)>): Db {
    map m | m in db :: ChecksTaken(db[m], m, worker, now, claimed)
  }

  // ---------------------------------------------------------------- batches are single steps, message by message

  /** A batch moves a message by at most one accepted step of each of its two statements. */
  ghost predicate AtMostOneStep(d: Delivery, after: Delivery, e: Event, now: int) {
    after == d || Apply(d, e, now) == Ok(after)
  }

  lemma SweepIsReclaim(d: Delivery, now: int, skip: bool)
    ensures AtMostOneStep(d, Swept(d, now, skip), Reclaim, now)
  {}

  lemma CheckSweepIsRelease(d: Delivery, now: int)
    requires Inv(d)
    ensures AtMostOneStep(d, CheckSwept(d, now), ReleaseCheck(d.message.attemptCount), now)
  {
    var n := d.message.attemptCount;
    var after := CheckSwept(d, now);
    assert forall k :: k in d.checkpoints && CheckLeaseExpired(d, k, now) ==> k == n;
    if CheckLeaseExpired(d, n, now) {
      assert after.checkpoints == ReleasedCheck(d, n, now).checkpoints;
    } else {
      assert after.checkpoints == d.checkpoints;
    }
  }

  lemma TakingIsClaim(d: Delivery, id: Text, worker: Text, now: int, claimed: seq<(Text, nat)>)
    requires Inv(d) && ValidWorkerId(worker)
    requires forall n :: (id, n) in claimed ==> CheckDue(d, n, now)
    ensures AtMostOneStep(d, ChecksTaken(d, id, worker, now, claimed),
                          ClaimCheck(d.message.attemptCount, worker), now)
  {
    var n := d.message.attemptCount;
    var after := ChecksTaken(d, id, worker, now, claimed);
    assert forall k :: (id, k) in claimed ==> k == n;
    if (id, n) in claimed {
      assert after.checkpoints == ClaimedCheck(d, n, worker, now).checkpoints;
    } else {
      assert after.checkpoints == d.checkpoints;
    }
  }

  lemma StepsKeepInv(d: Delivery, after: Delivery, e: Event, now: int)
    requires Inv(d) && AtMostOneStep(d, after, e, now)
    ensures Inv(after)
  {
    hide Inv;
    hide Apply;
    if after != d {
      StepKeepsInv(d, e, now);
    }
  }

  /** A whole delivery claim keeps every message valid. */
  lemma ClaimsKeepAllValid(db: Db, worker: Text, now: int, locked: set<Text>, switches: set<Switch>,
                           claimed: seq<Text>)
    requires AllValid(db) && ValidWorkerId(worker)
    requires forall m :: m in claimed ==> m in DueDeliveries(SweptDb(db, now, locked), now, locked, switches)
    ensures AllValid(ClaimedDb(SweptDb(db, now, locked), worker, now, claimed))
  {
    var swept := SweptDb(db, now, locked);
    forall m | m in swept
      ensures Inv(ClaimedDb(swept, worker, now, claimed)[m])
    {
      hide Inv;
      SweepIsReclaim(db[m], now, m in locked);
      StepsKeepInv(db[m], swept[m], Reclaim, now);
      if m in claimed {
        ClaimKeepsInv(swept[m], worker, now);
      }
    }
  }

  /** A whole reconciliation claim keeps every message valid. */
  lemma CheckClaimsKeepAllValid(db: Db, worker: Text, now: int, locked: set<(Text, nat)>,
                                claimed: seq<(Text, nat)>)
    requires AllValid(db) && ValidWorkerId(worker)
    requires forall m, n :: (m, n) in claimed ==> (m, n) in DueChecks(CheckSweptDb(db, now), now, locked)
    ensures AllValid(ChecksTakenDb(CheckSweptDb(db, now), worker, now, claimed))
  {
    var swept := CheckSweptDb(db, now);
    forall m | m in swept
      ensures Inv(ChecksTakenDb(swept, worker, now, claimed)[m])
    {
      hide Inv;
      CheckSweepIsRelease(db[m], now);
      StepsKeepInv(db[m], swept[m], ReleaseCheck(db[m].message.attemptCount), now);
      TakingIsClaim(swept[m], m, worker, now, claimed);
      StepsKeepInv(swept[m], ChecksTaken(swept[m], m, worker, now, claimed),
                   ClaimCheck(swept[m].message.attemptCount, worker), now);
    }
  }

  lemma StepKeepsAllValid(db: Db, id: Text, e: Event, now: int, missing: StoreError)
    requires AllValid(db) && Stepped(db, id, e, now, missing).Ok?
    ensures AllValid(Stepped(db, id, e, now, missing).value)
  {
    hide Inv;
    hide Apply;
    StepKeepsInv(db[id], e, now);
  }
}
