/** Provider workers as program counters.  Any number of worker instances, each with its own id, interleave
    their store calls with each other, with operators and with the clock; any of them may stop between two
    calls and never continue; adapters answer as they like, within the gate on their results. */
module ProviderWorkers {
  import opened Wrappers
  import opened Texts
  import opened RetryPolicy
  import opened DeliveryRules
  import opened DeliverySafety
  import opened DueSelection
  import opened DeliveryTables
  import opened DeliveryRuns

  // ---------------------------------------------------------------- adapter answers

  datatype RawAnswer =
    | RawAcknowledged(acknowledgementRef: Text)
    | RawFailed(errorCode: Text, failure: FailureClass, retryAfterMs: Option<int>, safeSummary: Text)
    | Threw

  datatype Answer =
    | Accepted(acknowledgementRef: Text)
    | Declined(errorCode: Text, failure: FailureClass, retryAfterMs: Option<int>)
    | Unusable

  function TrimStart(s: Text): Text {
    if s != [] && IsSpace(s[0]) then TrimStart(s[1..]) else s
  }

  function TrimEnd(s: Text): Text {
    if s != [] && IsSpace(s[|s| - 1]) then TrimEnd(s[..|s| - 1]) else s
  }

  predicate BoundedText(s: Text, max: nat) { !Blank(s) && |TrimEnd(TrimStart(s))| <= max }

  predicate IsFailureCode(s: Text) {
    && 3 <= |s| <= 64 && 65 <= s[0] <= 90
    && forall i :: 1 <= i < |s| ==> 65 <= s[i] <= 90 || 48 <= s[i] <= 57 || s[i] == 95
  }

  /** What the worker makes of an adapter's result; a thrown error and a malformed result look the same. */
  function CheckedAnswer(raw: RawAnswer): Answer {
    match raw
    case Threw => Unusable
    case RawAcknowledged(acknowledgementRef) =>
      if BoundedText(acknowledgementRef, 1_000) then Accepted(acknowledgementRef) else Unusable
    case RawFailed(errorCode, failure, retryAfterMs, safeSummary) =>
      if IsFailureCode(errorCode) && BoundedText(safeSummary, 1_000)
         && (retryAfterMs.None? || 0 <= retryAfterMs.value <= RETRY_MAX_DELAY_MS)
      then Declined(errorCode, failure, retryAfterMs)
      else Unusable
  }

  // ---------------------------------------------------------------- workers and the system

  datatype Report = Report(id: Text, state: OutboxState)

  datatype Worker =
    | Idle
    | Delivering(todo: seq<Text>, outcomes: seq<Report>)
    | AboutToCall(attempt: nat, todo: seq<Text>, outcomes: seq<Report>)
    | HasAnswer(answer: Answer, todo: seq<Text>, outcomes: seq<Report>)
    | Reconciling(checks: seq<(Text, nat)>)
    | Gone

  /** `calls` lists every call of an adapter's execute, as message and attempt. */
  datatype System = System(
    db: Db, clock: int, switches: set<Switch>, workers: map<Text, Worker>, calls: seq<(Text, nat)>)

  datatype Action =
    | Tick(clock: int)
    | SetSwitches(switches: set<Switch>)
    | Enqueue(id: Text, delivery: Delivery)
    | Operate(id: Text, attempt: nat, observation: Observation, observedVersion: Option<Text>,
              readbackRef: Option<Text>)
    | Launch(worker: Text)
    | Crash(worker: Text)
    | Beat(worker: Text, id: Text)
    | ClaimBatch(worker: Text, limit: Option<int>, locked: set<Text>, claimed: seq<Text>)
    | Refuse(worker: Text, failure: FailureClass, errorCode: Text, digestByte: bv8, appNow: int)
    | Begin(worker: Text, requestRef: Text)
    | Execute(worker: Text, raw: RawAnswer)
    | Settle(worker: Text, errorCode: Text, digestByte: bv8, appNow: int)
    | ClaimChecks(worker: Text, limit: Option<int>, lockedChecks: set<(Text, nat)>, claimedChecks: seq<(Text, nat)>)
    | AnswerCheck(worker: Text, observation: Observation, observedVersion: Option<Text>,
                  readbackRef: Option<Text>, appNow: int)

  /** The store call a worker with an answer makes, and the state it reports when the call succeeds. */
  function SettlingEvent(worker: Text, answer: Answer, errorCode: Text, digestByte: bv8, appNow: int): Event {
    match answer
    case Accepted(acknowledgementRef) => Acknowledge(worker, acknowledgementRef)
    case Declined(code, failure, retryAfterMs) => Fail(worker, failure, code, retryAfterMs, digestByte, appNow)
    case Unusable => Fail(worker, AmbiguousAfterAck, errorCode, None, digestByte, appNow)
  }

  function ReportedState(answer: Answer, recorded: OutboxState): OutboxState {
    match answer
    case Accepted(_) => ProviderAcknowledged
    case Declined(_, _, _) => recorded
    case Unusable => ReconciliationRequired
  }

  lemma {:induction false} TrimStartExactly(s: Text) returns (i: nat)
    ensures i <= |s| && TrimStart(s) == s[i..] && (forall k :: 0 <= k < i ==> IsSpace(s[k]))
    ensures i < |s| ==> !IsSpace(s[i])
  {
    i := 0;
    if s != [] && IsSpace(s[0]) {
      i := TrimStartExactly(s[1..]);
      assert s[1..][i..] == s[i + 1..] && forall k :: 0 < k <= i ==> s[k] == s[1..][k - 1];
      i := i + 1;
    }
  }

  lemma {:induction false} TrimEndExactly(s: Text) returns (n: nat)
    ensures n <= |s| && TrimEnd(s) == s[..n] && (forall k :: n <= k < |s| ==> IsSpace(s[k]))
    ensures n > 0 ==> !IsSpace(s[n - 1])
  {
    n := |s|;
    if s != [] && IsSpace(s[|s| - 1]) {
      n := TrimEndExactly(s[..|s| - 1]);
      assert s[..|s| - 1][..n] == s[..n];
    } else {
      assert s[..|s|] == s;
    }
  }

  /** The text between the outermost characters that are no space, from `first` to `last`. */
  ghost predicate Spans(s: Text, first: nat, last: nat) {
    && first <= last < |s| && !IsSpace(s[first]) && !IsSpace(s[last])
    && (forall k :: 0 <= k < first ==> IsSpace(s[k])) && (forall k :: last < k < |s| ==> IsSpace(s[k]))
  }

  /** A bounded text has something between its outer spaces, and at most so much of it. */
  lemma BoundedExactly(s: Text, max: nat)
    ensures BoundedText(s, max) <==> exists first: nat, last: nat :: Spans(s, first, last) && last - first < max
  {
    hide IsSpace;
    var i := TrimStartExactly(s);
    var n := TrimEndExactly(s[i..]);
    if i < |s| {
      assert s[i..][0] == s[i];
      assert forall k :: i <= k < |s| ==> s[k] == s[i..][k - i];
      assert n > 0;
      assert Spans(s, i, i + n - 1);
      assert forall first: nat, last: nat :: Spans(s, first, last) ==> first == i && last == i + n - 1;
    }
  }

  /** An answer is acted upon exactly when it is well formed: an acknowledgement with a bounded reference, or a failure
      with a code of 3 to 64 capital letters, digits and underscores that starts with a letter, a bounded summary and a
      delay of at most 15 minutes.  Whatever else happens after the start, an error included, is recorded as ambiguous,
      so that the source is asked before anything is sent again. */
  lemma AnswerExactly(raw: RawAnswer, worker: Text, code: Text, digestByte: bv8, appNow: int)
    ensures var e := SettlingEvent(worker, CheckedAnswer(raw), code, digestByte, appNow);
            match raw
            case Threw => e == Fail(worker, AmbiguousAfterAck, code, None, digestByte, appNow)
            case RawAcknowledged(ref) =>
              if exists first: nat, last: nat :: Spans(ref, first, last) && last - first < 1_000
              then e == Acknowledge(worker, ref)
              else e == Fail(worker, AmbiguousAfterAck, code, None, digestByte, appNow)
            case RawFailed(errorCode, failure, retryAfterMs, summary) =>
              if && 3 <= |errorCode| <= 64 && 65 <= errorCode[0] <= 90
                 && (forall i :: 0 <= i < |errorCode| ==>
                       65 <= errorCode[i] <= 90 || 48 <= errorCode[i] <= 57 || errorCode[i] == 95)
                 && (exists first: nat, last: nat :: Spans(summary, first, last) && last - first < 1_000)
                 && (retryAfterMs.None? || 0 <= retryAfterMs.value <= 900_000)
              then e == Fail(worker, failure, errorCode, retryAfterMs, digestByte, appNow)
              else e == Fail(worker, AmbiguousAfterAck, code, None, digestByte, appNow)
  {
    match raw {
      case Threw =>
      case RawAcknowledged(ref) => BoundedExactly(ref, 1_000);
      case RawFailed(_, _, _, summary) => BoundedExactly(summary, 1_000);
    }
    hide BoundedText, Spans;
  }

  /** One store call about one message; a refused call throws, which ends the worker's batch but not the worker.
      A completion that the worker repeats with another answer after a refusal counts as its second call only. */
  function Called(s: System, worker: Text, id: Text, e: Event, missing: StoreError, next: Worker): System {
    match Stepped(s.db, id, e, s.clock, missing)
    case Ok(db) => s.(db := db, workers := s.workers[worker := next])
    case Err(_) => s.(workers := s.workers[worker := Idle])
  }

  function RecordedState(s: System, id: Text, e: Event): OutboxState {
    match Stepped(s.db, id, e, s.clock, LeaseNotOwned)
    case Ok(db) => if id in db then db[id].message.state else Pending
    case Err(_) => Pending
  }

  predicate Busy(s: System, worker: Text) {
    worker in s.workers && s.workers[worker].Delivering? && s.workers[worker].todo != []
  }

  predicate BetweenBatches(w: Worker) {
    w.Idle? || (w.Delivering? && w.todo == []) || (w.Reconciling? && w.checks == [])
  }

  ghost predicate Step(s: System, a: Action, after: System) {
    match a
    case Tick(clock) => s.clock <= clock && after == s.(clock := clock)
    case SetSwitches(switches) => after == s.(switches := switches)
    case Enqueue(id, delivery) => id !in s.db && Fresh(delivery) && after == s.(db := s.db[id := delivery])
    case Operate(id, n, observation, observedVersion, readbackRef) =>
      (match Stepped(s.db, id, CloseByOperator(n, observation, observedVersion, readbackRef), s.clock,
                     ReconciliationMissing)
       case Ok(db) => after == s.(db := db)
       case Err(_) => after == s)
    case Launch(worker) => worker !in s.workers && after == s.(workers := s.workers[worker := Idle])
    case Crash(worker) => worker in s.workers && after == s.(workers := s.workers[worker := Gone])
    case Beat(worker, id) =>
      (match Stepped(s.db, id, Heartbeat(worker), s.clock, LeaseNotOwned)
       case Ok(db) => after == s.(db := db)
       case Err(_) => after == s)
    case ClaimBatch(worker, limit, locked, claimed) =>
      && worker in s.workers && BetweenBatches(s.workers[worker])
      && ValidWorkerId(worker)
      && var swept := SweptDb(s.db, s.clock, locked);
      && EarliestFirst(DueDeliveries(swept, s.clock, locked, s.switches), BoundedLimit(limit), claimed)
      && after == s.(db := ClaimedDb(swept, worker, s.clock, claimed),
                     workers := s.workers[worker := Delivering(claimed, [])])
    case Refuse(worker, failure, errorCode, digestByte, appNow) =>
      && Busy(s, worker) && Unsafe(failure)
      && var w := s.workers[worker];
      && after == Called(s, worker, w.todo[0], Fail(worker, failure, errorCode, None, digestByte, appNow),
                         LeaseNotOwned,
                         Delivering(w.todo[1..], w.outcomes + [Report(w.todo[0], DeadLettered)]))
    case Begin(worker, requestRef) =>
      && Busy(s, worker)
      && var w := s.workers[worker];
      && after == Called(s, worker, w.todo[0], Start(worker, requestRef), LeaseNotOwned,
                         AboutToCall(if w.todo[0] in s.db then s.db[w.todo[0]].message.attemptCount else 0,
                                     w.todo, w.outcomes))
    case Execute(worker, raw) =>
      && worker in s.workers && s.workers[worker].AboutToCall? && s.workers[worker].todo != []
      && var w := s.workers[worker];
      && after == s.(calls := s.calls + [(w.todo[0], w.attempt)],
                     workers := s.workers[worker := HasAnswer(CheckedAnswer(raw), w.todo, w.outcomes)])
    case Settle(worker, errorCode, digestByte, appNow) =>
      && worker in s.workers && s.workers[worker].HasAnswer? && s.workers[worker].todo != []
      && var w := s.workers[worker];
      && var e := SettlingEvent(worker, w.answer, errorCode, digestByte, appNow);
      && after == Called(s, worker, w.todo[0], e, LeaseNotOwned,
                         Delivering(w.todo[1..], w.outcomes + [
                           Report(w.todo[0], ReportedState(w.answer, RecordedState(s, w.todo[0], e)))]))
    case ClaimChecks(worker, limit, locked, claimed) =>
      && worker in s.workers && BetweenBatches(s.workers[worker])
      && ValidWorkerId(worker)
      && var swept := CheckSweptDb(s.db, s.clock);
      && EarliestFirst(DueChecks(swept, s.clock, locked), BoundedLimit(limit), claimed)
      && after == s.(db := ChecksTakenDb(swept, worker, s.clock, claimed),
                     workers := s.workers[worker := Reconciling(claimed)])
    case AnswerCheck(worker, observation, observedVersion, readbackRef, appNow) =>
      && worker in s.workers && s.workers[worker].Reconciling? && s.workers[worker].checks != []
      && var w := s.workers[worker];
      && after == Called(s, worker, w.checks[0].0,
                         CompleteCheck(w.checks[0].1, worker, observation, observedVersion, readbackRef, appNow),
                         ReconciliationLeaseNotOwned, Reconciling(w.checks[1..]))
  }

  ghost predicate SystemTrace(states: seq<System>, actions: seq<Action>) {
    && |states| == |actions| + 1
    && states[0].db == map[] && states[0].workers == map[] && states[0].calls == []
    && forall i :: 0 <= i < |actions| ==> Step(states[i], actions[i], states[i + 1])
  }

  // ---------------------------------------------------------------- messages only move forward

  ghost predicate Forward(d: Delivery, after: Delivery) {
    && d.message.maxAttempts == after.message.maxAttempts
    && forall n :: Dispatched(d, n) ==> Dispatched(after, n)
  }

  ghost predicate AllForward(db: Db, after: Db) {
    forall m :: m in db ==> m in after && Forward(db[m], after[m])
  }

  lemma EventForward(d: Delivery, e: Event, now: int, after: Delivery)
    requires AtMostOneStep(d, after, e, now)
    ensures Forward(d, after)
  {
    hide Apply;
    if after != d {
      AttemptsOnlyGrow(d, e, now);
      forall n: nat | Dispatched(d, n)
        ensures Dispatched(after, n)
      {
        DispatchIsDurable(d, e, now, n);
      }
    }
  }

  lemma SteppedForward(db: Db, id: Text, e: Event, now: int, missing: StoreError)
    requires AllValid(db) && Stepped(db, id, e, now, missing).Ok?
    ensures var after := Stepped(db, id, e, now, missing).value;
            AllForward(db, after) && AllValid(after)
  {
    hide Inv;
    hide Apply;
    StepKeepsAllValid(db, id, e, now, missing);
    EventForward(db[id], e, now, Stepped(db, id, e, now, missing).value[id]);
  }

  lemma ClaimsForward(db: Db, worker: Text, now: int, locked: set<Text>, switches: set<Switch>,
                      claimed: seq<Text>)
    requires AllValid(db) && ValidWorkerId(worker)
    requires forall m :: m in claimed ==> m in DueDeliveries(SweptDb(db, now, locked), now, locked, switches)
    ensures var after := ClaimedDb(SweptDb(db, now, locked), worker, now, claimed);
            AllForward(db, after) && AllValid(after)
  {
    ClaimsKeepAllValid(db, worker, now, locked, switches, claimed);
    var swept := SweptDb(db, now, locked);
    forall m | m in db
      ensures Forward(db[m], ClaimedDb(swept, worker, now, claimed)[m])
    {
      hide Inv;
      SweepIsReclaim(db[m], now, m in locked);
      EventForward(db[m], Reclaim, now, swept[m]);
    }
  }

  lemma CheckClaimsForward(db: Db, worker: Text, now: int, locked: set<(Text, nat)>,
                           claimed: seq<(Text, nat)>)
    requires AllValid(db) && ValidWorkerId(worker)
    requires forall m, n :: (m, n) in claimed ==> (m, n) in DueChecks(CheckSweptDb(db, now), now, locked)
    ensures var after := ChecksTakenDb(CheckSweptDb(db, now), worker, now, claimed);
            AllForward(db, after) && AllValid(after)
  {
    CheckClaimsKeepAllValid(db, worker, now, locked, claimed);
  }

  // ---------------------------------------------------------------- the system invariant

  ghost predicate CallsValid(s: System) {
    && Distinct(s.calls)
    && forall i :: 0 <= i < |s.calls| ==> s.calls[i].0 in s.db && Dispatched(s.db[s.calls[i].0], s.calls[i].1)
  }

  predicate MayCall(s: System, worker: Text) {
    worker in s.workers && s.workers[worker].AboutToCall?
  }

  ghost predicate CallersValid(s: System) {
    && (forall w :: MayCall(s, w) ==>
          && s.workers[w].todo != [] && s.workers[w].todo[0] in s.db
          && Dispatched(s.db[s.workers[w].todo[0]], s.workers[w].attempt)
          && (s.workers[w].todo[0], s.workers[w].attempt) !in s.calls)
    && (forall v, w :: MayCall(s, v) && MayCall(s, w) && v != w ==>
          s.workers[v].todo[0] != s.workers[w].todo[0] || s.workers[v].attempt != s.workers[w].attempt)
  }

  ghost predicate SystemInv(s: System) { AllValid(s.db) && CallsValid(s) && CallersValid(s) }

  /** A step that moves messages forward, makes no call and lets no worker come to a call keeps the invariant. */
  lemma QuietStep(s: System, after: System)
    requires SystemInv(s) && AllForward(s.db, after.db) && AllValid(after.db) && after.calls == s.calls
    requires forall w :: MayCall(after, w) ==> w in s.workers && s.workers[w] == after.workers[w]
    ensures SystemInv(after)
  {
    hide Inv;
  }

  lemma BeginStep(s: System, worker: Text, requestRef: Text, after: System)
    requires SystemInv(s) && Step(s, Begin(worker, requestRef), after)
    ensures SystemInv(after)
  {
    hide Inv;
    hide InputError;
    var id := s.workers[worker].todo[0];
    var e := Start(worker, requestRef);
    if Stepped(s.db, id, e, s.clock, LeaseNotOwned).Ok? {
      var n := s.db[id].message.attemptCount;
      assert n !in s.db[id].attempts;
      hide RowStep;
      SteppedForward(s.db, id, e, s.clock, LeaseNotOwned);
      StartBegins(s.db[id], e, s.clock);
      assert after.workers[worker] == AboutToCall(n, s.workers[worker].todo, s.workers[worker].outcomes);
      assert Dispatched(after.db[id], n);
      assert (id, n) !in s.calls;
      assert forall w :: MayCall(after, w) && w != worker ==> MayCall(s, w) && after.workers[w] == s.workers[w];
    } else {
      QuietStep(s, after);
    }
  }

  lemma ExecuteStep(s: System, worker: Text, raw: RawAnswer, after: System)
    requires SystemInv(s) && Step(s, Execute(worker, raw), after)
    ensures SystemInv(after)
  {
    hide Inv;
    hide CheckedAnswer;
    assert MayCall(s, worker);
    assert forall w :: MayCall(after, w) ==> MayCall(s, w) && w != worker && after.workers[w] == s.workers[w];
  }

  lemma CalledStep(s: System, worker: Text, id: Text, e: Event, missing: StoreError, next: Worker)
    requires SystemInv(s) && !next.AboutToCall?
    ensures SystemInv(Called(s, worker, id, e, missing, next))
  {
    hide Inv;
    hide Apply;
    var after := Called(s, worker, id, e, missing, next);
    if Stepped(s.db, id, e, s.clock, missing).Ok? {
      SteppedForward(s.db, id, e, s.clock, missing);
    }
    QuietStep(s, after);
  }

  lemma StepKeepsSystemInv(s: System, a: Action, after: System)
    requires SystemInv(s) && Step(s, a, after)
    ensures SystemInv(after)
  {
    hide Inv;
    hide Apply;
    match a
    case Begin(worker, requestRef) => BeginStep(s, worker, requestRef, after);
    case Execute(worker, raw) => ExecuteStep(s, worker, raw, after);
    case Refuse(worker, failure, errorCode, digestByte, appNow) =>
      var w := s.workers[worker];
      CalledStep(s, worker, w.todo[0], Fail(worker, failure, errorCode, None, digestByte, appNow), LeaseNotOwned,
                 Delivering(w.todo[1..], w.outcomes + [Report(w.todo[0], DeadLettered)]));
    case Settle(worker, errorCode, digestByte, appNow) =>
      var w := s.workers[worker];
      var e := SettlingEvent(worker, w.answer, errorCode, digestByte, appNow);
      CalledStep(s, worker, w.todo[0], e, LeaseNotOwned,
                 Delivering(w.todo[1..], w.outcomes + [
                   Report(w.todo[0], ReportedState(w.answer, RecordedState(s, w.todo[0], e)))]));
    case AnswerCheck(worker, observation, observedVersion, readbackRef, appNow) =>
      var w := s.workers[worker];
      CalledStep(s, worker, w.checks[0].0,
                 CompleteCheck(w.checks[0].1, worker, observation, observedVersion, readbackRef, appNow),
                 ReconciliationLeaseNotOwned, Reconciling(w.checks[1..]));
    case Operate(id, n, observation, observedVersion, readbackRef) =>
      var e := CloseByOperator(n, observation, observedVersion, readbackRef);
      if Stepped(s.db, id, e, s.clock, ReconciliationMissing).Ok? {
        SteppedForward(s.db, id, e, s.clock, ReconciliationMissing);
      }
      QuietStep(s, after);
    case Beat(worker, id) =>
      if Stepped(s.db, id, Heartbeat(worker), s.clock, LeaseNotOwned).Ok? {
        SteppedForward(s.db, id, Heartbeat(worker), s.clock, LeaseNotOwned);
      }
      QuietStep(s, after);
    case ClaimBatch(worker, limit, locked, claimed) =>
      ClaimsForward(s.db, worker, s.clock, locked, s.switches, claimed);
      QuietStep(s, after);
    case ClaimChecks(worker, limit, locked, claimed) =>
      CheckClaimsForward(s.db, worker, s.clock, locked, claimed);
      QuietStep(s, after);
    case Enqueue(id, delivery) =>
      FreshIsValid(delivery);
      QuietStep(s, after);
    case _ => QuietStep(s, after);
  }

  lemma {:induction false} SystemRunKeepsInv(states: seq<System>, actions: seq<Action>, i: nat)
    requires SystemTrace(states, actions) && i <= |actions|
    ensures SystemInv(states[i])
  {
    hide Step;
    if i > 0 {
      SystemRunKeepsInv(states, actions, i - 1);
      assert Step(states[i - 1], actions[i - 1], states[i - 1 + 1]);
      StepKeepsSystemInv(states[i - 1], actions[i - 1], states[i]);
    }
  }

  // ---------------------------------------------------------------- main results

  function CallsOf(calls: seq<(Text, nat)>, id: Text): seq<nat> {
    if calls == [] then []
    else CallsOf(calls[..|calls| - 1], id)
         + if calls[|calls| - 1].0 == id then [calls[|calls| - 1].1] else []
  }

  lemma {:induction false} CallsOfDistinct(calls: seq<(Text, nat)>, id: Text)
    requires Distinct(calls)
    ensures Distinct(CallsOf(calls, id))
    ensures forall n :: n in CallsOf(calls, id) ==> (id, n) in calls
  {
    if calls != [] {
      CallsOfDistinct(calls[..|calls| - 1], id);
    }
  }

  lemma {:induction false} DistinctBelow(s: seq<nat>, max: nat)
    requires Distinct(s) && forall n :: n in s ==> 1 <= n <= max
    ensures |s| <= max
  {
    if s == [] {
      return;
    }
    assert s[0] in s;
    if max in s {
      var i :| 0 <= i < |s| && s[i] == max;
      var rest := s[..i] + s[i + 1..];
      forall n | n in rest
        ensures 1 <= n <= max - 1
      {
        assert n in s;
      }
      DistinctBelow(rest, max - 1);
    } else {
      DistinctBelow(s, max - 1);
    }
  }

  /** In every interleaving of workers, crashes, lost leases and clock readings, the provider is called at most
      once per attempt and so at most `maxAttempts` times per message, and each of these calls has the durable
      start row of its attempt. */
  lemma ProviderCallsAreBounded(states: seq<System>, actions: seq<Action>, i: nat, id: Text)
    requires SystemTrace(states, actions) && i <= |actions| && id in states[i].db
    ensures |CallsOf(states[i].calls, id)| <= states[i].db[id].message.maxAttempts
    ensures Distinct(states[i].calls)
    ensures forall n :: (id, n) in states[i].calls ==> Dispatched(states[i].db[id], n)
  {
    hide Step;
    SystemRunKeepsInv(states, actions, i);
    var s := states[i];
    CallsOfDistinct(s.calls, id);
    forall n | n in CallsOf(s.calls, id)
      ensures 1 <= n <= s.db[id].message.maxAttempts
    {
      assert Dispatched(s.db[id], n) && Inv(s.db[id]);
    }
    DistinctBelow(CallsOf(s.calls, id), s.db[id].message.maxAttempts);
  }

  /** A call is only ever made once the start row of its attempt is in the table. */
  lemma CallsFollowDurableStarts(s: System, a: Action, after: System)
    requires SystemInv(s) && Step(s, a, after) && after.calls != s.calls
    ensures a.Execute? && a.worker in s.workers && s.workers[a.worker].AboutToCall?
    ensures var w := s.workers[a.worker];
            && w.todo != [] && after.calls == s.calls + [(w.todo[0], w.attempt)]
            && w.todo[0] in s.db && Dispatched(s.db[w.todo[0]], w.attempt)
            && (w.todo[0], w.attempt) !in s.calls
  {
    hide Inv;
    hide Apply;
    if a.Execute? {
      assert MayCall(s, a.worker);
    }
  }

  /** Every outcome a delivery batch reports is the state the store recorded at that very step. */
  lemma OutcomesAreRecorded(s: System, a: Action, after: System, worker: Text)
    requires SystemInv(s) && Step(s, a, after) && worker in s.workers
    requires a.Refuse? || a.Settle?
    requires a.worker == worker && after.workers[worker].Delivering?
    ensures |after.workers[worker].outcomes| == |s.workers[worker].outcomes| + 1
    ensures var report := after.workers[worker].outcomes[|s.workers[worker].outcomes|];
            && report.id == s.workers[worker].todo[0]
            && report.id in after.db && after.db[report.id].message.state == report.state
  {
    hide ClaimValid;
    hide ChecksValid;
    hide ConfirmationValid;
    hide SettlementValid;
    var id := s.workers[worker].todo[0];
    var e := if a.Refuse? then Fail(worker, a.failure, a.errorCode, None, a.digestByte, a.appNow)
             else SettlingEvent(worker, s.workers[worker].answer, a.errorCode, a.digestByte, a.appNow);
    assert Stepped(s.db, id, e, s.clock, LeaseNotOwned).Ok?;
    StateAfterOwnerEvent(s.db[id], e, s.clock);
  }

  lemma StateAfterOwnerEvent(d: Delivery, e: Event, now: int)
    requires CountsValid(d) && Apply(d, e, now).Ok?
    ensures e.Acknowledge? ==> Apply(d, e, now).value.message.state == ProviderAcknowledged
    ensures e.Fail? && Unsafe(e.failure) ==> Apply(d, e, now).value.message.state == DeadLettered
    ensures e.Fail? && e.failure == AmbiguousAfterAck ==>
              Apply(d, e, now).value.message.state == ReconciliationRequired
  {}
}
