/** Every run of the whole system, seen from one message, is a run of that message: so the theorems about
    single messages hold in every interleaving of workers, crashes, operators and clock readings. */
module DeliveryProjection {
  import opened Wrappers
  import opened Texts
  import opened RetryPolicy
  import opened DeliveryRules
  import opened DeliverySafety
  import opened DueSelection
  import opened DeliveryTables
  import opened DeliveryRuns
  import opened ProviderWorkers

  /** What an action does to one message, in the message's own events. */
  function EventsOf(s: System, a: Action, id: Text): seq<Event>
    requires id in s.db
  {
    match a
    case ClaimBatch(worker, _, _, _) => [Reclaim, Claim(worker)]
    case ClaimChecks(worker, _, _, _) =>
      [ReleaseCheck(s.db[id].message.attemptCount), ClaimCheck(s.db[id].message.attemptCount, worker)]
    case Operate(m, n, observation, observedVersion, readbackRef) =>
      if m == id then [CloseByOperator(n, observation, observedVersion, readbackRef)] else []
    case Beat(worker, m) => if m == id then [Heartbeat(worker)] else []
    case Refuse(worker, failure, errorCode, digestByte, appNow) =>
      if Delivers(s, worker, id) then [Fail(worker, failure, errorCode, None, digestByte, appNow)] else []
    case Begin(worker, requestRef) => if Delivers(s, worker, id) then [Start(worker, requestRef)] else []
    case Settle(worker, errorCode, digestByte, appNow) =>
      if Delivers(s, worker, id) && s.workers[worker].HasAnswer?
      then [SettlingEvent(worker, s.workers[worker].answer, errorCode, digestByte, appNow)]
      else []
    case AnswerCheck(worker, observation, observedVersion, readbackRef, appNow) =>
      if Checks(s, worker, id)
      then [CompleteCheck(s.workers[worker].checks[0].1, worker, observation, observedVersion, readbackRef, appNow)]
      else []
    case _ => []
  }

  /** The message is the next one of the worker's delivery batch. */
  predicate Delivers(s: System, worker: Text, id: Text) {
    && worker in s.workers
    && match s.workers[worker]
       case Delivering(todo, _) => todo != [] && todo[0] == id
       case AboutToCall(_, todo, _) => todo != [] && todo[0] == id
       case HasAnswer(_, todo, _) => todo != [] && todo[0] == id
       case _ => false
  }

  predicate Checks(s: System, worker: Text, id: Text) {
    && worker in s.workers && s.workers[worker].Reconciling?
    && s.workers[worker].checks != [] && s.workers[worker].checks[0].0 == id
  }

  /** `d` becomes `after` by way of `mid`, by at most one accepted step of each of at most two events. */
  ghost predicate MovesBy(d: Delivery, mid: Delivery, after: Delivery, events: seq<Event>, now: int) {
    match |events|
    case 0 => d == mid == after
    case 1 => d == mid && AtMostOneStep(d, after, events[0], now)
    case 2 => AtMostOneStep(d, mid, events[0], now) && AtMostOneStep(mid, after, events[1], now)
    case _ => false
  }

  /** One system step moves a message by the action's events on it, at the system's clock. */
  lemma StepSeenFrom(s: System, a: Action, after: System, id: Text) returns (mid: Delivery)
    requires SystemInv(s) && Step(s, a, after) && id in s.db
    ensures id in after.db
    ensures MovesBy(s.db[id], mid, after.db[id], EventsOf(s, a, id), s.clock)
  {
    if a.ClaimBatch? {
      hide SystemInv, Step, EventsOf, MovesBy;
      mid := BatchClaimSeenFrom(s, a, after, id);
    } else if a.ClaimChecks? {
      hide SystemInv, Step, EventsOf, MovesBy;
      mid := CheckClaimSeenFrom(s, a, after, id);
    } else {
      hide SystemInv, Apply, SettlingEvent, RecordedState, ReportedState;
      mid := s.db[id];
    }
  }

  lemma BatchClaimSeenFrom(s: System, a: Action, after: System, id: Text) returns (mid: Delivery)
    requires Step(s, a, after) && a.ClaimBatch? && id in s.db
    ensures id in after.db
    ensures MovesBy(s.db[id], mid, after.db[id], EventsOf(s, a, id), s.clock)
  {
    hide Apply;
    mid := Swept(s.db[id], s.clock, id in a.locked);
    SweepIsReclaim(s.db[id], s.clock, id in a.locked);
    ClaimIsStep(mid, a.worker, s.clock, id in a.claimed);
  }

  lemma CheckClaimSeenFrom(s: System, a: Action, after: System, id: Text) returns (mid: Delivery)
    requires SystemInv(s) && Step(s, a, after) && a.ClaimChecks? && id in s.db
    ensures id in after.db
    ensures MovesBy(s.db[id], mid, after.db[id], EventsOf(s, a, id), s.clock)
  {
    hide Inv;
    hide Apply;
    var n := s.db[id].message.attemptCount;
    mid := CheckSwept(s.db[id], s.clock);
    CheckSweepIsRelease(s.db[id], s.clock);
    StepsKeepInv(s.db[id], mid, ReleaseCheck(n), s.clock);
    TakingIsClaim(mid, id, a.worker, s.clock, a.claimedChecks);
  }

  lemma ClaimIsStep(d: Delivery, worker: Text, now: int, chosen: bool)
    requires chosen ==> Due(d, now) && ValidWorkerId(worker)
    ensures AtMostOneStep(d, if chosen then ClaimedBy(d, worker, now) else d, Claim(worker), now)
  {}

  /** A history of one message: it began fresh, time never ran backwards, and it has reached `d` by `clock`. */
  ghost predicate HistoryOf(history: seq<Delivery>, log: seq<Stamped>, d: Delivery, clock: int) {
    && Trace(history, log) && Fresh(history[0]) && history[|log|] == d
    && Chronological(log) && (log != [] ==> log[|log| - 1].now <= clock)
  }

  /** State `j` of the run shows the message as the history has it at position `at[j]`. */
  ghost predicate Placed(states: seq<System>, j: nat, id: Text, history: seq<Delivery>, at: seq<nat>)
    requires j < |states| && j < |at|
  {
    id in states[j].db && at[j] < |history| && history[at[j]] == states[j].db[id]
  }

  /** What the history has between states `j` and `j + 1` are events of action `j`, at its clock. */
  ghost predicate Between(
    states: seq<System>, actions: seq<Action>, j: nat, id: Text, log: seq<Stamped>, at: seq<nat>)
    requires j < |states| && j < |actions| && j + 1 < |at|
  {
    && id in states[j].db
    && at[j] <= at[j + 1] <= |log| && at[j + 1] <= at[j] + |EventsOf(states[j], actions[j], id)|
    && forall p :: at[j] <= p < at[j + 1] ==>
         log[p].now == states[j].clock && log[p].event in EventsOf(states[j], actions[j], id)
  }

  /** From state `since`, where the message appears, to state `i` the history follows the run step for step. */
  ghost predicate Follows(
    states: seq<System>, actions: seq<Action>, since: nat, i: nat, id: Text,
    history: seq<Delivery>, log: seq<Stamped>, at: seq<nat>)
    requires |states| == |actions| + 1 && i <= |actions|
  {
    && since <= i && |at| == i + 1 && at[since] == 0 && at[i] == |log|
    && (forall j :: 0 <= j < since ==> id !in states[j].db)
    && (forall j :: since <= j <= i ==> Placed(states, j, id, history, at))
    && (forall j :: since <= j < i ==> Between(states, actions, j, id, log, at))
  }

  lemma Extend(history: seq<Delivery>, log: seq<Stamped>, d: Delivery, clock: int, e: Event, next: Delivery)
    returns (history': seq<Delivery>, log': seq<Stamped>)
    requires HistoryOf(history, log, d, clock) && AtMostOneStep(d, next, e, clock)
    ensures HistoryOf(history', log', next, clock)
    ensures history <= history' && log <= log' <= log + [Stamped(e, clock)]
  {
    hide Apply;
    hide Fresh;
    if next == d {
      history', log' := history, log;
    } else {
      history', log' := history + [next], log + [Stamped(e, clock)];
      forall i | 0 <= i < |log'|
        ensures Apply(history'[i], log'[i].event, log'[i].now) == Ok(history'[i + 1])
      {
        if i < |log| {
          TraceStep(history, log, i);
        }
      }
    }
  }

  lemma ExtendByEvents(
    history: seq<Delivery>, log: seq<Stamped>, d: Delivery, clock: int, events: seq<Event>, mid: Delivery,
    next: Delivery)
    returns (history': seq<Delivery>, log': seq<Stamped>)
    requires HistoryOf(history, log, d, clock) && MovesBy(d, mid, next, events, clock)
    ensures HistoryOf(history', log', next, clock)
    ensures history <= history' && log <= log' && |log'| <= |log| + |events|
    ensures forall p :: |log| <= p < |log'| ==> log'[p].now == clock && log'[p].event in events
  {
    hide Apply;
    hide HistoryOf;
    history', log' := history, log;
    if |events| == 1 {
      history', log' := Extend(history, log, d, clock, events[0], next);
    } else if |events| == 2 {
      history', log' := Extend(history, log, d, clock, events[0], mid);
      history', log' := Extend(history', log', mid, clock, events[1], next);
    }
  }

  lemma StepClock(s: System, a: Action, after: System)
    requires Step(s, a, after)
    ensures s.clock <= after.clock
  {
    hide Apply;
  }

  lemma NewMessagesAreFresh(s: System, a: Action, after: System, id: Text)
    requires Step(s, a, after) && id !in s.db && id in after.db
    ensures Fresh(after.db[id])
  {
    hide Apply;
  }

  lemma {:induction false} MessagesStay(states: seq<System>, actions: seq<Action>, j: nat, i: nat, id: Text)
    requires SystemTrace(states, actions) && j <= i <= |actions| && id in states[j].db
    ensures id in states[i].db
  {
    hide Step;
    if j < i {
      MessagesStay(states, actions, j, i - 1, id);
      SystemRunKeepsInv(states, actions, i - 1);
      assert Step(states[i - 1], actions[i - 1], states[i - 1 + 1]);
      var _ := StepSeenFrom(states[i - 1], actions[i - 1], states[i], id);
    }
  }

  /** Each message of a reachable system state has a history of its own accepted steps, which follows the run: it has
      the message's row of every state since the message appeared, and between two of them only what the action
      between them did, at its clock. */
  lemma {:induction false} MessageHistory(states: seq<System>, actions: seq<Action>, i: nat, id: Text)
    returns (since: nat, history: seq<Delivery>, log: seq<Stamped>, at: seq<nat>)
    requires SystemTrace(states, actions) && i <= |actions| && id in states[i].db
    ensures HistoryOf(history, log, states[i].db[id], states[i].clock)
    ensures Follows(states, actions, since, i, id, history, log, at)
  {
    hide Step;
    hide Apply;
    hide Fresh;
    hide SystemInv;
    var s, a := states[i - 1], actions[i - 1];
    assert Step(s, a, states[i - 1 + 1]);
    SystemRunKeepsInv(states, actions, i - 1);
    if id !in s.db {
      NewMessagesAreFresh(s, a, states[i], id);
      since, history, log, at := i, [states[i].db[id]], [], seq(i + 1, _ => 0);
      forall j | 0 <= j < i
        ensures id !in states[j].db
      {
        if id in states[j].db {
          MessagesStay(states, actions, j, i - 1, id);
        }
      }
    } else {
      var before, prior, places;
      since, before, prior, places := MessageHistory(states, actions, i - 1, id);
      var mid := StepSeenFrom(s, a, states[i], id);
      history, log := ExtendByEvents(
        before, prior, s.db[id], s.clock, EventsOf(s, a, id), mid, states[i].db[id]);
      at := places + [|log|];
      StepClock(s, a, states[i]);
      StillFollows(states, actions, since, i - 1, id, before, prior, places, history, log);
    }
  }

  lemma StillFollows(
    states: seq<System>, actions: seq<Action>, since: nat, i: nat, id: Text,
    before: seq<Delivery>, prior: seq<Stamped>, places: seq<nat>, history: seq<Delivery>, log: seq<Stamped>)
    requires |states| == |actions| + 1 && i < |actions| && id in states[i].db
    requires Follows(states, actions, since, i, id, before, prior, places)
    requires before <= history && prior <= log && |history| == |log| + 1
    requires id in states[i + 1].db && history[|log|] == states[i + 1].db[id]
    requires |log| <= |prior| + |EventsOf(states[i], actions[i], id)|
    requires forall p :: |prior| <= p < |log| ==>
               log[p].now == states[i].clock && log[p].event in EventsOf(states[i], actions[i], id)
    ensures Follows(states, actions, since, i + 1, id, history, log, places + [|log|])
  {
    hide EventsOf;
    var at := places + [|log|];
    forall j | since <= j <= i + 1
      ensures Placed(states, j, id, history, at)
    {
      assert j <= i ==> Placed(states, j, id, before, places);
    }
    forall j | since <= j < i + 1
      ensures Between(states, actions, j, id, log, at)
    {
      assert j < i ==> Between(states, actions, j, id, prior, places);
      assert Placed(states, j, id, before, places);
    }
  }

  // ---------------------------------------------------------------- from the history back to the run

  /** Action `j` of the run was a call about this message that the store accepted as event `e`. */
  ghost predicate AcceptedAt(states: seq<System>, actions: seq<Action>, j: nat, id: Text, e: Event)
    requires |states| == |actions| + 1 && j < |actions|
  {
    && id in states[j].db && id in states[j + 1].db
    && EventsOf(states[j], actions[j], id) == [e]
    && Apply(states[j].db[id], e, states[j].clock) == Ok(states[j + 1].db[id])
  }

  predicate OfBatch(e: Event) { e.Reclaim? || e.Claim? || e.ReleaseCheck? || e.ClaimCheck? }

  lemma {:induction false} ActionAt(
    states: seq<System>, actions: seq<Action>, since: nat, i: nat, id: Text,
    history: seq<Delivery>, log: seq<Stamped>, at: seq<nat>, p: nat, end: nat)
    returns (j: nat)
    requires |states| == |actions| + 1 && i <= |actions|
    requires Follows(states, actions, since, i, id, history, log, at)
    requires since <= end <= i && p < at[end]
    ensures since <= j < end && at[j] <= p < at[j + 1]
  {
    hide EventsOf;
    if at[end - 1] <= p {
      j := end - 1;
    } else {
      j := ActionAt(states, actions, since, i, id, history, log, at, p, end - 1);
    }
  }

  /** An accepted step of the history that no batch statement makes is an action of the run on the very same row. */
  lemma OwnActionAt(
    states: seq<System>, actions: seq<Action>, since: nat, i: nat, id: Text,
    history: seq<Delivery>, log: seq<Stamped>, at: seq<nat>, p: nat)
    returns (j: nat)
    requires |states| == |actions| + 1 && i <= |actions|
    requires Trace(history, log) && Follows(states, actions, since, i, id, history, log, at)
    requires p < |log| && !OfBatch(log[p].event)
    ensures j < i && since <= j && at[j] == p
    ensures AcceptedAt(states, actions, j, id, log[p].event) && states[j].db[id] == history[p]
  {
    hide Apply;
    j := ActionAt(states, actions, since, i, id, history, log, at, p, i);
    assert Between(states, actions, j, id, log, at);
    assert Placed(states, j, id, history, at) && Placed(states, j + 1, id, history, at);
    TraceStep(history, log, p);
    assert |EventsOf(states[j], actions[j], id)| == 1;
  }

  lemma {:induction false} PlacesGrow(
    states: seq<System>, actions: seq<Action>, since: nat, i: nat, id: Text,
    history: seq<Delivery>, log: seq<Stamped>, at: seq<nat>, j: nat, l: nat)
    requires |states| == |actions| + 1 && i <= |actions|
    requires Follows(states, actions, since, i, id, history, log, at)
    requires since <= j <= l <= i
    ensures at[j] <= at[l]
  {
    hide EventsOf;
    if j < l {
      PlacesGrow(states, actions, since, i, id, history, log, at, j, l - 1);
      assert Between(states, actions, l - 1, id, log, at);
    }
  }

  // ---------------------------------------------------------------- no blind retry

  /** In every interleaving: when attempts n < m of one message both have a durable dispatch start, some action k,
      about the message while n was its current attempt, settled n, by a failure its owner recorded before
      acknowledgement or by a leased check that found nothing; and only a later action l dispatched attempt m. */
  lemma NoBlindRetryAnywhere(states: seq<System>, actions: seq<Action>, i: nat, id: Text, n: nat, m: nat)
    requires SystemTrace(states, actions) && i <= |actions| && id in states[i].db
    requires n < m && Dispatched(states[i].db[id], n) && Dispatched(states[i].db[id], m)
    ensures SettledInRows(states[i].db[id], n)
    ensures exists k: nat, l: nat, e: Event, f: Event ::
              && k < l < i
              && AcceptedAt(states, actions, k, id, e) && Settles(e, n)
              && states[k].db[id].message.attemptCount == n
              && (actions[k].Refuse? || actions[k].Settle? || actions[k].AnswerCheck?)
              && AcceptedAt(states, actions, l, id, f) && f.Start?
              && states[l].db[id].message.attemptCount == m && actions[l].Begin?
  {
    hide Step;
    hide Apply;
    SystemRunKeepsInv(states, actions, i);
    assert Inv(states[i].db[id]);
    hide Inv;
    var since, history, log, at := MessageHistory(states, actions, i, id);
    hide Follows;
    FreshIsValid(history[0]);
    var first := StartOf(history, log, |log|, n);
    var second := StartOf(history, log, |log|, m);
    StartsInOrder(history, log, first, second);
    NoBlindRetry(history, log, first, second);
    var settled :| first < settled < second && history[settled].message.attemptCount == n
                   && Settles(log[settled].event, n);
    var k := OwnActionAt(states, actions, since, i, id, history, log, at, settled);
    var l := OwnActionAt(states, actions, since, i, id, history, log, at, second);
    if l <= k {
      PlacesGrow(states, actions, since, i, id, history, log, at, l, k);
    }
    SettlersAndStarters(states[k], actions[k], id, n);
    SettlersAndStarters(states[l], actions[l], id, n);
    assert AcceptedAt(states, actions, k, id, log[settled].event);
    assert AcceptedAt(states, actions, l, id, log[second].event);
  }

  lemma SettlersAndStarters(s: System, a: Action, id: Text, n: nat)
    requires id in s.db && |EventsOf(s, a, id)| == 1
    ensures Settles(EventsOf(s, a, id)[0], n) ==> a.Refuse? || a.Settle? || a.AnswerCheck?
    ensures EventsOf(s, a, id)[0].Start? ==> a.Begin?
  {}

  lemma OnlyStartsDispatch(d: Delivery, e: Event, now: int, n: nat)
    requires Inv(d) && Apply(d, e, now).Ok? && Dispatched(Apply(d, e, now).value, n) && !Dispatched(d, n)
    ensures e.Start? && n == d.message.attemptCount
  {
    hide ValidWorkerId, Blank, DecideRetry, ConfirmationValid, SettlementValid;
  }

  /** A durable start row was written by an accepted dispatch start of that attempt. */
  lemma {:induction false} StartOf(history: seq<Delivery>, log: seq<Stamped>, j: nat, n: nat) returns (i: nat)
    requires Trace(history, log) && Fresh(history[0]) && j <= |log| && Dispatched(history[j], n)
    ensures i < j && log[i].event.Start? && history[i].message.attemptCount == n
  {
    hide Apply;
    FreshIsValid(history[0]);
    RunKeepsInv(history, log, j - 1);
    TraceStep(history, log, j - 1);
    if Dispatched(history[j - 1], n) {
      i := StartOf(history, log, j - 1, n);
    } else {
      OnlyStartsDispatch(history[j - 1], log[j - 1].event, log[j - 1].now, n);
      i := j - 1;
    }
  }

  lemma StartsInOrder(history: seq<Delivery>, log: seq<Stamped>, first: nat, second: nat)
    requires Trace(history, log) && first < |log| && second < |log|
    requires history[first].message.attemptCount < history[second].message.attemptCount
    ensures first < second
  {
    hide Apply;
    if second <= first {
      RunOnlyGrows(history, log, second, first);
    }
  }

  // ---------------------------------------------------------------- bounded delivery

  /** Action `j` is no heartbeat and changed something about the message. */
  predicate ChangedAt(states: seq<System>, actions: seq<Action>, j: nat, id: Text)
    requires |states| == |actions| + 1 && j < |actions|
  {
    && id in states[j].db && id in states[j + 1].db && states[j].db[id] != states[j + 1].db[id]
    && !actions[j].Beat?
  }

  /** How many of the first `i` actions changed something about the message, heartbeats aside. */
  function Changes(states: seq<System>, actions: seq<Action>, i: nat, id: Text): nat
    requires |states| == |actions| + 1 && i <= |actions|
  {
    if i == 0 then 0
    else Changes(states, actions, i - 1, id) + if ChangedAt(states, actions, i - 1, id) then 1 else 0
  }

  lemma PartFalls(d: Delivery, after: Delivery, e: Event, now: int)
    requires Inv(d) && AtMostOneStep(d, after, e, now)
    ensures Inv(after) && after.message.maxAttempts == d.message.maxAttempts
    ensures after == d || (if e.Heartbeat? then Rank(after) == Rank(d) else Rank(after) < Rank(d))
  {
    hide Inv;
    hide Apply;
    hide Rank;
    if after != d {
      StepKeepsInv(d, e, now);
      AttemptsOnlyGrow(d, e, now);
      EveryStepFalls(d, e, now);
    }
  }

  lemma NoOtherBeats(s: System, a: Action, id: Text)
    requires id in s.db && !a.Beat?
    ensures forall e <- EventsOf(s, a, id) :: !e.Heartbeat?
  {}

  lemma SystemStepFalls(s: System, a: Action, after: System, id: Text)
    requires SystemInv(s) && Step(s, a, after) && id in s.db
    ensures id in after.db && after.db[id].message.maxAttempts == s.db[id].message.maxAttempts
    ensures Rank(after.db[id]) <= Rank(s.db[id])
    ensures after.db[id] != s.db[id] && !a.Beat? ==> Rank(after.db[id]) < Rank(s.db[id])
  {
    var mid := StepSeenFrom(s, a, after, id);
    assert Inv(s.db[id]);
    hide Inv, Apply, Rank, Step, EventsOf;
    var events := EventsOf(s, a, id);
    if !a.Beat? {
      NoOtherBeats(s, a, id);
    }
    if |events| == 1 {
      PartFalls(s.db[id], after.db[id], events[0], s.clock);
    } else if |events| == 2 {
      PartFalls(s.db[id], mid, events[0], s.clock);
      PartFalls(mid, after.db[id], events[1], s.clock);
    }
  }

  lemma FreshRank(d: Delivery)
    requires Fresh(d)
    ensures Rank(d) == STEPS_PER_ATTEMPT * d.message.maxAttempts + 1
  {}

  lemma {:induction false} ChangesSpendRank(states: seq<System>, actions: seq<Action>, i: nat, id: Text)
    requires SystemTrace(states, actions) && i <= |actions|
    ensures if id in states[i].db
            then Changes(states, actions, i, id) + Rank(states[i].db[id])
                 <= STEPS_PER_ATTEMPT * states[i].db[id].message.maxAttempts + 1
            else Changes(states, actions, i, id) == 0
  {
    hide Step, SystemInv, Rank, Fresh;
    if i > 0 {
      ChangesSpendRank(states, actions, i - 1, id);
      var s, a := states[i - 1], actions[i - 1];
      assert Step(s, a, states[i - 1 + 1]);
      SystemRunKeepsInv(states, actions, i - 1);
      if id in s.db {
        SystemStepFalls(s, a, states[i], id);
      } else if id in states[i].db {
        NewMessagesAreFresh(s, a, states[i], id);
        FreshRank(states[i].db[id]);
      }
    }
  }

  /** In every interleaving: of all actions of a run, by whatever workers and operators, at most a fixed number per
      delivery attempt change anything about one message, heartbeats aside. */
  lemma DeliveryEndsAnywhere(states: seq<System>, actions: seq<Action>, i: nat, id: Text)
    requires SystemTrace(states, actions) && i <= |actions| && id in states[i].db
    ensures Changes(states, actions, i, id) <= STEPS_PER_ATTEMPT * states[i].db[id].message.maxAttempts + 1
  {
    hide Step;
    ChangesSpendRank(states, actions, i, id);
  }

  // ---------------------------------------------------------------- leases

  /** Action `k` claimed the message for this worker, and no later action before state `i` claimed it again. */
  ghost predicate LastClaim(actions: seq<Action>, k: nat, i: nat, id: Text, worker: Text)
    requires i <= |actions|
  {
    && k < i && actions[k].ClaimBatch? && actions[k].worker == worker && id in actions[k].claimed
    && forall j :: k < j < i && actions[j].ClaimBatch? ==> id !in actions[j].claimed
  }

  lemma PartKeepsLease(d: Delivery, after: Delivery, e: Event, now: int)
    requires Inv(d) && AtMostOneStep(d, after, e, now) && !e.Claim?
    ensures Inv(after)
    ensures after.message.state == Claimed ==>
              && d.message.state == Claimed && d.message.lease.Some? && after.message.lease.Some?
              && after.message.lease.value.owner == d.message.lease.value.owner
              && after.message.lease.value.lockedAt == d.message.lease.value.lockedAt
  {
    if after == d {
      assert ClaimValid(d);
    } else {
      hide Inv;
      hide Apply;
      StepKeepsInv(d, e, now);
      if after.message.state == Claimed {
        OnlyClaimsOpenLeases(d, e, now);
      }
    }
  }

  lemma OthersKeepLease(s: System, a: Action, after: System, id: Text)
    requires SystemInv(s) && Step(s, a, after) && id in s.db && id in after.db
    requires a.ClaimBatch? ==> id !in a.claimed
    requires after.db[id].message.state == Claimed
    ensures s.db[id].message.state == Claimed && s.db[id].message.lease.Some? && after.db[id].message.lease.Some?
    ensures after.db[id].message.lease.value.owner == s.db[id].message.lease.value.owner
    ensures after.db[id].message.lease.value.lockedAt == s.db[id].message.lease.value.lockedAt
  {
    hide Inv, Apply;
    if a.ClaimBatch? {
      SweepIsReclaim(s.db[id], s.clock, id in a.locked);
      PartKeepsLease(s.db[id], after.db[id], Reclaim, s.clock);
    } else {
      var mid := StepSeenFrom(s, a, after, id);
      hide Step;
      var events := EventsOf(s, a, id);
      assert forall e <- events :: !e.Claim?;
      assert Inv(s.db[id]);
      OthersKeepLeaseBy(s.db[id], mid, after.db[id], events, s.clock);
    }
  }

  lemma OthersKeepLeaseBy(d: Delivery, mid: Delivery, after: Delivery, events: seq<Event>, now: int)
    requires Inv(d) && MovesBy(d, mid, after, events, now) && forall e <- events :: !e.Claim?
    requires after.message.state == Claimed
    ensures d.message.state == Claimed && d.message.lease.Some? && after.message.lease.Some?
    ensures after.message.lease.value.owner == d.message.lease.value.owner
    ensures after.message.lease.value.lockedAt == d.message.lease.value.lockedAt
  {
    hide Inv, Apply;
    match |events| {
      case 0 => PartKeepsLease(d, after, Reclaim, now);
      case 1 => PartKeepsLease(d, after, events[0], now);
      case _ =>
        PartKeepsLease(d, mid, events[0], now);
        PartKeepsLease(mid, after, events[1], now);
    }
  }

  lemma ClaimSeen(s: System, a: Action, after: System, id: Text)
    requires Step(s, a, after) && a.ClaimBatch? && id in a.claimed && id in s.db
    ensures id in after.db && after.db[id].message.lease.Some?
    ensures after.db[id].message.lease.value.owner == a.worker
    ensures after.db[id].message.lease.value.lockedAt == s.clock
  {
    hide Apply;
  }

  /** A held lease was opened by the last batch that claimed the message, for its worker and at its time. */
  lemma {:induction false} LeaseOpenedAnywhere(states: seq<System>, actions: seq<Action>, i: nat, id: Text)
    returns (k: nat)
    requires SystemTrace(states, actions) && i <= |actions| && id in states[i].db
    requires states[i].db[id].message.state == Claimed
    ensures states[i].db[id].message.lease.Some?
    ensures LastClaim(actions, k, i, id, states[i].db[id].message.lease.value.owner)
    ensures states[k].clock == states[i].db[id].message.lease.value.lockedAt
  {
    hide Step, SystemInv;
    var s, a := states[i - 1], actions[i - 1];
    assert Step(s, a, states[i - 1 + 1]);
    SystemRunKeepsInv(states, actions, i - 1);
    if id !in s.db {
      NewMessagesAreFresh(s, a, states[i], id);
    }
    if a.ClaimBatch? && id in a.claimed {
      ClaimSeen(s, a, states[i], id);
      k := i - 1;
    } else {
      OthersKeepLease(s, a, states[i], id);
      k := LeaseOpenedAnywhere(states, actions, i - 1, id);
    }
  }

  lemma PartIsTimed(d: Delivery, after: Delivery, e: Event, now: int)
    requires AtMostOneStep(d, after, e, now) && ClaimTimed(d, now)
    ensures ClaimTimed(after, now)
  {
    hide Apply;
    if after != d {
      StepIsTimed(d, e, now, now);
    }
  }

  lemma {:induction false} TimedAnywhere(states: seq<System>, actions: seq<Action>, i: nat, id: Text)
    requires SystemTrace(states, actions) && i <= |actions| && id in states[i].db
    ensures ClaimTimed(states[i].db[id], states[i].clock)
  {
    hide Step, SystemInv, Apply;
    var s, a := states[i - 1], actions[i - 1];
    assert Step(s, a, states[i - 1 + 1]);
    SystemRunKeepsInv(states, actions, i - 1);
    StepClock(s, a, states[i]);
    if id in s.db {
      TimedAnywhere(states, actions, i - 1, id);
      var mid := StepSeenFrom(s, a, states[i], id);
      hide ClaimTimed, EventsOf;
      var events := EventsOf(s, a, id);
      if |events| == 1 {
        PartIsTimed(s.db[id], states[i].db[id], events[0], s.clock);
      } else if |events| == 2 {
        PartIsTimed(s.db[id], mid, events[0], s.clock);
        PartIsTimed(mid, states[i].db[id], events[1], s.clock);
      }
      LaterTimed(states[i].db[id], s.clock, states[i].clock);
    } else {
      NewMessagesAreFresh(s, a, states[i], id);
    }
  }

  lemma LaterTimed(d: Delivery, clock: int, later: int)
    requires ClaimTimed(d, clock) && clock <= later
    ensures ClaimTimed(d, later)
  {}

  /** In every interleaving a held lease ends less than 105 seconds after the claim that opened it: the last batch
      of the run that claimed the message, which was its owner's. */
  lemma LeasesEndAnywhere(states: seq<System>, actions: seq<Action>, i: nat, id: Text)
    requires SystemTrace(states, actions) && i <= |actions| && id in states[i].db
    requires states[i].db[id].message.state == Claimed
    ensures states[i].db[id].message.lease.Some?
    ensures var lease := states[i].db[id].message.lease.value;
            exists k: nat :: && LastClaim(actions, k, i, id, lease.owner)
                             && states[k].clock == lease.lockedAt <= states[i].clock
                             && lease.expiresAt < states[k].clock + 105_000
  {
    hide Step;
    var k := LeaseOpenedAnywhere(states, actions, i, id);
    TimedAnywhere(states, actions, i, id);
  }

  /** In every interleaving a dispatch start, acknowledgement, failure or heartbeat is accepted only from the worker
      of the last batch that claimed the message, and within 45 seconds of it. */
  lemma OwnersActInTimeAnywhere(states: seq<System>, actions: seq<Action>, j: nat, id: Text, e: Event)
    requires SystemTrace(states, actions) && j < |actions|
    requires AcceptedAt(states, actions, j, id, e) && OwnerEvent(e)
    ensures actions[j].Begin? || actions[j].Settle? || actions[j].Refuse? || actions[j].Beat?
    ensures actions[j].worker == OwnerOf(e)
    ensures exists k: nat :: && LastClaim(actions, k, j, id, actions[j].worker)
                             && states[k].clock <= states[j].clock < states[k].clock + 45_000
  {
    hide Step, Apply;
    SystemRunKeepsInv(states, actions, j);
    assert Inv(states[j].db[id]);
    hide Inv;
    OwnerEventsNeedLease(states[j].db[id], e, states[j].clock);
    var k := LeaseOpenedAnywhere(states, actions, j, id);
    TimedAnywhere(states, actions, j, id);
    assert EventsOf(states[j], actions[j], id)[0] == e;
  }
}
