/** The workflow state machine, its store and the continuation it offers. */
module WorkflowMachine {
  import opened Wrappers
  import opened Texts

  datatype WorkflowState =
    | Planned | Running | WaitingForFact | WaitingForHuman | WaitingForProvider | Resuming
    | Compensating | Completed | Failed | Cancelled | Superseded | Quarantined

  datatype FlowCommand =
    | AcknowledgeProvider | CancelFutureWork | ConfirmSourceReadback | FailCurrentStep | PauseForFact
    | PauseForHuman | QuarantineFlow | ReconcileSource | ResumeFlow | RetrySafeStep | StartFlow | SupersedeFlow

  datatype FlowError = FlowMissing | StaleFlowVersion | KillSwitchBlocks | NotAllowed

  datatype Edge = Edge(command: FlowCommand, target: WorkflowState)

  /** The transition table: the edges of a state, in the order in which they are declared. */
  function Transitions(s: WorkflowState): seq<Edge> {
    match s
    case Planned => [Edge(StartFlow, Running), Edge(CancelFutureWork, Cancelled), Edge(SupersedeFlow, Superseded)]
    case Running => [
      Edge(PauseForFact, WaitingForFact), Edge(PauseForHuman, WaitingForHuman),
      Edge(AcknowledgeProvider, WaitingForProvider), Edge(ConfirmSourceReadback, Completed),
      Edge(FailCurrentStep, Failed), Edge(CancelFutureWork, Cancelled), Edge(SupersedeFlow, Superseded)]
    case WaitingForFact => [
      Edge(ResumeFlow, Resuming), Edge(CancelFutureWork, Cancelled), Edge(SupersedeFlow, Superseded)]
    case WaitingForHuman => [
      Edge(ResumeFlow, Resuming), Edge(CancelFutureWork, Cancelled), Edge(SupersedeFlow, Superseded)]
    case WaitingForProvider => [
      Edge(ConfirmSourceReadback, Completed), Edge(ReconcileSource, Resuming), Edge(FailCurrentStep, Failed),
      Edge(CancelFutureWork, Cancelled), Edge(SupersedeFlow, Superseded)]
    case Resuming => [
      Edge(RetrySafeStep, Running), Edge(ReconcileSource, Running), Edge(FailCurrentStep, Failed),
      Edge(CancelFutureWork, Cancelled)]
    case Compensating => [
      Edge(ConfirmSourceReadback, Completed), Edge(FailCurrentStep, Failed), Edge(QuarantineFlow, Quarantined)]
    case Completed => [Edge(SupersedeFlow, Superseded)]
    case Failed => [
      Edge(RetrySafeStep, Resuming), Edge(ReconcileSource, Resuming), Edge(QuarantineFlow, Quarantined),
      Edge(SupersedeFlow, Superseded)]
    case Cancelled => [Edge(ReconcileSource, Resuming), Edge(SupersedeFlow, Superseded)]
    case Superseded => []
    case Quarantined => [
      Edge(ReconcileSource, Resuming), Edge(ResumeFlow, Resuming), Edge(SupersedeFlow, Superseded)]
  }

  /** The commands that a kill switch lets through. */
  predicate PassesKillSwitch(c: FlowCommand) {
    c == CancelFutureWork || c == QuarantineFlow || c == ReconcileSource || c == SupersedeFlow
  }

  function TargetOf(edges: seq<Edge>, c: FlowCommand): Option<WorkflowState> {
    if edges == [] then None else if edges[0].command == c then Some(edges[0].target) else TargetOf(edges[1..], c)
  }

  function NextState(c: FlowCommand, s: WorkflowState, killSwitch: bool): Result<WorkflowState, FlowError> {
    if killSwitch && !PassesKillSwitch(c) then Err(KillSwitchBlocks)
    else
      var target := TargetOf(Transitions(s), c);
      if target.None? then Err(NotAllowed) else Ok(target.value)
  }

  datatype Snapshot = Snapshot(
    tenant: Text, flowId: Text, state: WorkflowState, stateVersion: int, definitionVersion: int, killSwitch: bool,
    activeCheckpoint: Option<Text>, blockers: nat, lastTransitionAt: int)

  function TransitionFlow(s: Snapshot, c: FlowCommand, expected: int, now: int): Result<Snapshot, FlowError> {
    if expected != s.stateVersion then Err(StaleFlowVersion)
    else
      var next := NextState(c, s.state, s.killSwitch);
      if next.Err? then Err(next.error)
      else Ok(s.(lastTransitionAt := now, state := next.value, stateVersion := s.stateVersion + 1))
  }

  // ---------------------------------------------------------------- runs

  /** A command with the version that its sender saw, or the kill switch being turned. */
  datatype Step = Command(command: FlowCommand, expected: int, at: int) | SetKillSwitch(on: bool)

  predicate AcceptedBy(s: Snapshot, step: Step) {
    step.Command? && TransitionFlow(s, step.command, step.expected, step.at).Ok?
  }

  function Next(s: Snapshot, step: Step): Snapshot {
    match step
    case Command(c, expected, now) => if AcceptedBy(s, step) then TransitionFlow(s, c, expected, now).value else s
    case SetKillSwitch(on) => s.(killSwitch := on)
  }

  function Run(s: Snapshot, steps: seq<Step>): Snapshot
    decreases |steps|
  {
    if steps == [] then s else Run(Next(s, steps[0]), steps[1..])
  }

  /** How many of the commands of a run are accepted. */
  function Accepted(s: Snapshot, steps: seq<Step>): nat
    decreases |steps|
  {
    if steps == [] then 0 else (if AcceptedBy(s, steps[0]) then 1 else 0) + Accepted(Next(s, steps[0]), steps[1..])
  }

  /** How many of those expected a given version. */
  function AcceptedAt(s: Snapshot, steps: seq<Step>, expected: int): nat
    decreases |steps|
  {
    if steps == [] then 0
    else
      (if AcceptedBy(s, steps[0]) && steps[0].expected == expected then 1 else 0)
      + AcceptedAt(Next(s, steps[0]), steps[1..], expected)
  }

  /** The version counts accepted commands. */
  lemma {:induction false} VersionCounts(s: Snapshot, steps: seq<Step>)
    ensures Run(s, steps).stateVersion == s.stateVersion + Accepted(s, steps)
    decreases |steps|
  {
    hide NextState;
    if steps != [] {
      VersionCounts(Next(s, steps[0]), steps[1..]);
    }
  }

  /** Of all commands that saw the same version, at most one is accepted; none if the version is past. */
  lemma {:induction false} AtMostOnePerVersion(s: Snapshot, steps: seq<Step>, expected: int)
    ensures AcceptedAt(s, steps, expected) <= 1
    ensures expected < s.stateVersion ==> AcceptedAt(s, steps, expected) == 0
    decreases |steps|
  {
    hide NextState;
    if steps != [] {
      AtMostOnePerVersion(Next(s, steps[0]), steps[1..], expected);
    }
  }

  lemma {:induction false} SupersededAbsorbs(s: Snapshot, steps: seq<Step>)
    requires s.state == Superseded
    ensures Run(s, steps).state == Superseded && Run(s, steps).stateVersion == s.stateVersion
    decreases |steps|
  {
    if steps != [] {
      SupersededAbsorbs(Next(s, steps[0]), steps[1..]);
    }
  }

  lemma {:induction false} LastTarget(edges: seq<Edge>, c: FlowCommand)
    requires edges != [] && edges[|edges| - 1].command == c
    requires forall i :: 0 <= i < |edges| - 1 ==> edges[i].command != c
    ensures TargetOf(edges, c) == Some(edges[|edges| - 1].target)
  {
    if |edges| > 1 {
      LastTarget(edges[1..], c);
    }
  }

  /** The way out of a state: to SUPERSEDED, except that RESUMING and COMPENSATING take one step more. */
  function WayOut(s: WorkflowState): FlowCommand {
    if s == Resuming then CancelFutureWork else if s == Compensating then QuarantineFlow else SupersedeFlow
  }

  lemma WayOutIsOpen(s: WorkflowState, killSwitch: bool)
    requires s != Superseded
    ensures NextState(WayOut(s), s, killSwitch) ==
            Ok(if s == Resuming then Cancelled else if s == Compensating then Quarantined else Superseded)
  {
    LastTarget(Transitions(s), WayOut(s));
  }

  /** From every other state, two commands at most lead to SUPERSEDED, even under a standing kill switch. */
  lemma SupersededIsNear(s: Snapshot, now: int) returns (steps: seq<Step>)
    requires s.state != Superseded
    ensures 1 <= |steps| <= 2 && (forall step <- steps :: step.Command?)
    ensures Run(s, steps).state == Superseded && Accepted(s, steps) == |steps|
  {
    hide NextState;
    var first := Command(WayOut(s.state), s.stateVersion, now);
    WayOutIsOpen(s.state, s.killSwitch);
    if WayOut(s.state) == SupersedeFlow {
      steps := [first];
      RunOne(s, first);
    } else {
      var mid := Next(s, first);
      var last := Command(SupersedeFlow, s.stateVersion + 1, now);
      WayOutIsOpen(mid.state, mid.killSwitch);
      steps := [first, last];
      RunOne(mid, last);
      assert steps[1..] == [last];
    }
  }

  lemma RunOne(s: Snapshot, step: Step)
    ensures Run(s, [step]) == Next(s, step)
    ensures Accepted(s, [step]) == if AcceptedBy(s, step) then 1 else 0
  {
    assert [step][1..] == [];
  }

  lemma {:induction false} TargetIsEdge(edges: seq<Edge>, c: FlowCommand)
    ensures var target := TargetOf(edges, c);
            target.Some? ==> exists i :: 0 <= i < |edges| && edges[i].target == target.value
  {
    if edges != [] {
      TargetIsEdge(edges[1..], c);
      if edges[0].command != c && TargetOf(edges, c).Some? {
        var i :| 0 <= i < |edges| - 1 && edges[1..][i].target == TargetOf(edges, c).value;
        assert edges[i + 1].target == TargetOf(edges, c).value;
      }
    }
  }

  lemma NoEdgeBack(s: WorkflowState)
    ensures var edges := Transitions(s);
            forall i :: 0 <= i < |edges| ==> edges[i].target != Compensating && edges[i].target != Planned
  {}

  /** Nothing leads to COMPENSATING or back to PLANNED: both can only be states that a flow was created in. */
  lemma {:induction false} NeverEntered(s: Snapshot, steps: seq<Step>)
    ensures Run(s, steps).state == Compensating ==> s.state == Compensating
    ensures Run(s, steps).state == Planned ==> s.state == Planned
    decreases |steps|
  {
    hide TargetOf, Transitions;
    if steps != [] {
      if steps[0].Command? {
        TargetIsEdge(Transitions(s.state), steps[0].command);
        NoEdgeBack(s.state);
      }
      NeverEntered(Next(s, steps[0]), steps[1..]);
    }
  }

  // ---------------------------------------------------------------- the table, command by command

  ghost predicate Looked(edges: seq<Edge>, c: FlowCommand, k: nat)
    requires k <= |edges|
  {
    TargetOf(edges[k..], c) ==
    if k == |edges| then None
    else if edges[k].command == c then Some(edges[k].target) else TargetOf(edges[k + 1..], c)
  }

  lemma TargetFrom(edges: seq<Edge>, c: FlowCommand, k: nat)
    requires k <= |edges|
    ensures Looked(edges, c, k)
  {
    if k < |edges| {
      assert edges[k..][1..] == edges[k + 1..];
    }
  }

  /** No state has more than seven edges, so a look-up is a chain of seven tests. */
  lemma TargetCases(edges: seq<Edge>, c: FlowCommand)
    requires |edges| <= 7
    ensures TargetOf(edges, c) ==
            if |edges| > 0 && edges[0].command == c then Some(edges[0].target)
            else if |edges| > 1 && edges[1].command == c then Some(edges[1].target)
            else if |edges| > 2 && edges[2].command == c then Some(edges[2].target)
            else if |edges| > 3 && edges[3].command == c then Some(edges[3].target)
            else if |edges| > 4 && edges[4].command == c then Some(edges[4].target)
            else if |edges| > 5 && edges[5].command == c then Some(edges[5].target)
            else if |edges| > 6 && edges[6].command == c then Some(edges[6].target)
            else None
  {
    hide TargetOf;
    assert edges[0..] == edges;
    for k := 0 to |edges| + 1
      invariant forall j :: 0 <= j < k ==> Looked(edges, c, j)
    {
      TargetFrom(edges, c, k);
    }
    assert forall j :: 0 <= j <= |edges| ==> Looked(edges, c, j);
    assert Looked(edges, c, 0) && (|edges| > 0 ==> Looked(edges, c, 1)) && (|edges| > 1 ==> Looked(edges, c, 2));
    assert (|edges| > 2 ==> Looked(edges, c, 3)) && (|edges| > 3 ==> Looked(edges, c, 4));
    assert (|edges| > 4 ==> Looked(edges, c, 5)) && (|edges| > 5 ==> Looked(edges, c, 6));
    assert |edges| > 6 ==> Looked(edges, c, 7);
  }

  /** Each command by itself: the states that it leaves, and the state that it leads to. */
  ghost predicate Leads(c: FlowCommand, s: WorkflowState, target: Option<WorkflowState>) {
    match c
    case StartFlow => target == if s == Planned then Some(Running) else None
    case PauseForFact => target == if s == Running then Some(WaitingForFact) else None
    case PauseForHuman => target == if s == Running then Some(WaitingForHuman) else None
    case AcknowledgeProvider => target == if s == Running then Some(WaitingForProvider) else None
    case ConfirmSourceReadback =>
      target == if s == Running || s == WaitingForProvider || s == Compensating then Some(Completed) else None
    case FailCurrentStep =>
      target == if s == Running || s == WaitingForProvider || s == Resuming || s == Compensating
                then Some(Failed) else None
    case CancelFutureWork =>
      target == if s == Planned || s == Running || s == WaitingForFact || s == WaitingForHuman
                   || s == WaitingForProvider || s == Resuming
                then Some(Cancelled) else None
    case SupersedeFlow =>
      target == if s == Resuming || s == Compensating || s == Superseded then None else Some(Superseded)
    case ResumeFlow =>
      target == if s == WaitingForFact || s == WaitingForHuman || s == Quarantined then Some(Resuming) else None
    case RetrySafeStep =>
      target == if s == Resuming then Some(Running) else if s == Failed then Some(Resuming) else None
    case ReconcileSource =>
      target == if s == Resuming then Some(Running)
                else if s == WaitingForProvider || s == Failed || s == Cancelled || s == Quarantined
                then Some(Resuming) else None
    case QuarantineFlow => target == if s == Failed || s == Compensating then Some(Quarantined) else None
  }

  lemma TableExactly(c: FlowCommand, s: WorkflowState)
    ensures Leads(c, s, TargetOf(Transitions(s), c))
  {
    hide TargetOf;
    TargetCases(Transitions(s), c);
  }

  /** Every command, from every state, with and without the kill switch: whether it is accepted, and where it leads.
      Under the kill switch only cancelling, quarantining, reconciling and superseding remain. */
  lemma CommandExactly(c: FlowCommand, s: WorkflowState)
    ensures Leads(c, s, if NextState(c, s, false).Ok? then Some(NextState(c, s, false).value) else None)
    ensures NextState(c, s, false).Err? ==> NextState(c, s, false) == Err(NotAllowed)
    ensures NextState(c, s, true) ==
            if c == CancelFutureWork || c == QuarantineFlow || c == ReconcileSource || c == SupersedeFlow
            then NextState(c, s, false) else Err(KillSwitchBlocks)
  {
    TableExactly(c, s);
    hide Transitions, TargetOf, Leads;
  }

  /** A flow moves exactly when the command names its present version, leads somewhere from its state, and no kill
      switch blocks it; then the state is where the command leads, the version is the next one, the time is noted, and
      everything else stays. */
  lemma TransitionExactly(s: Snapshot, c: FlowCommand, expected: int, now: int, next: Snapshot)
    ensures TransitionFlow(s, c, expected, now) == Ok(next) <==>
              && expected == s.stateVersion && Leads(c, s.state, Some(next.state))
              && (s.killSwitch ==>
                    c == CancelFutureWork || c == QuarantineFlow || c == ReconcileSource || c == SupersedeFlow)
              && next == s.(state := next.state, stateVersion := s.stateVersion + 1, lastTransitionAt := now)
  {
    CommandExactly(c, s.state);
    hide NextState;
  }

  /** The commands that lead into a state; nothing leads into PLANNED or COMPENSATING. */
  predicate Enters(c: FlowCommand, s: WorkflowState) {
    match s
    case Running => c == StartFlow || c == RetrySafeStep || c == ReconcileSource
    case WaitingForFact => c == PauseForFact
    case WaitingForHuman => c == PauseForHuman
    case WaitingForProvider => c == AcknowledgeProvider
    case Resuming => c == ResumeFlow || c == RetrySafeStep || c == ReconcileSource
    case Completed => c == ConfirmSourceReadback
    case Failed => c == FailCurrentStep
    case Cancelled => c == CancelFutureWork
    case Superseded => c == SupersedeFlow
    case Quarantined => c == QuarantineFlow
    case _ => false
  }

  lemma EnteredByOne(s: Snapshot, step: Step)
    requires Next(s, step).state != s.state
    ensures AcceptedBy(s, step) && Enters(step.command, Next(s, step).state)
  {
    hide NextState, Transitions, TargetOf;
    if step.Command? {
      CommandExactly(step.command, s.state);
    }
  }

  lemma {:induction false} RunSplits(s: Snapshot, steps: seq<Step>)
    requires steps != []
    ensures Run(s, steps) == Next(Run(s, steps[..|steps| - 1]), steps[|steps| - 1])
    decreases |steps|
  {
    hide Next;
    if |steps| > 1 {
      RunSplits(Next(s, steps[0]), steps[1..]);
      assert steps[1..][..|steps| - 2] == steps[..|steps| - 1][1..];
    } else {
      assert steps[..0] == [] && steps[1..] == [];
    }
  }

  /** Over every run that ends in another state than it began in: an accepted command of the run led into that state,
      one of those that lead there, and the flow has been in that state ever since.  So a flow is COMPLETED only by a
      source readback, FAILED only by a failing step, CANCELLED, QUARANTINED and SUPERSEDED only by their commands, and
      waits only for what it was told to wait for. */
  lemma {:induction false} EnteredBy(s: Snapshot, steps: seq<Step>) returns (i: nat)
    requires Run(s, steps).state != s.state
    ensures i < |steps| && AcceptedBy(Run(s, steps[..i]), steps[i]) && Enters(steps[i].command, Run(s, steps).state)
    ensures forall j :: i < j <= |steps| ==> Run(s, steps[..j]).state == Run(s, steps).state
    decreases |steps|
  {
    hide Next, AcceptedBy, Enters;
    var last := |steps| - 1;
    RunSplits(s, steps);
    assert steps[..|steps|] == steps;
    if Run(s, steps[..last]).state == Run(s, steps).state {
      i := EnteredBy(s, steps[..last]);
      assert forall j :: 0 <= j <= last ==> steps[..last][..j] == steps[..j];
    } else {
      EnteredByOne(Run(s, steps[..last]), steps[last]);
      i := last;
    }
  }

  // ---------------------------------------------------------------- explanation

  function Commands(edges: seq<Edge>): (r: seq<FlowCommand>)
    ensures |r| == |edges| && forall i :: 0 <= i < |edges| ==> r[i] == edges[i].command
  {
    seq(|edges|, i requires 0 <= i < |edges| => edges[i].command)
  }

  datatype NextAction = NextAction(action: FlowCommand, eligible: bool)

  function NextActions(s: Snapshot): (r: seq<NextAction>)
    ensures |r| == |Transitions(s.state)|
  {
    var commands := Commands(Transitions(s.state));
    seq(|commands|, i requires 0 <= i < |commands| =>
      NextAction(commands[i], !s.killSwitch || PassesKillSwitch(commands[i])))
  }

  function EligibleCommands(actions: seq<NextAction>): seq<FlowCommand> {
    if actions == [] then []
    else (if actions[0].eligible then [actions[0].action] else []) + EligibleCommands(actions[1..])
  }

  datatype Descriptor = Descriptor(
    allowedCommands: seq<FlowCommand>, checkpoint: Option<Text>, expiresAt: int, flowId: Text, stateVersion: int,
    tenant: Text, workflowVersion: int)

  function DescriptorFor(s: Snapshot, now: int, ttl: int): Descriptor {
    Descriptor(EligibleCommands(NextActions(s)), s.activeCheckpoint, now + ttl, s.flowId, s.stateVersion, s.tenant,
               s.definitionVersion)
  }

  datatype Verdict = Proven | Breached

  /** Every flow that is not over offers a next action or names a blocker. */
  function ProgressGuarantee(s: Snapshot): Verdict {
    if s.state == Completed || s.state == Cancelled || s.state == Superseded || NextActions(s) != [] || s.blockers > 0
    then Proven else Breached
  }

  lemma {:induction false} EligibleExactly(actions: seq<NextAction>, c: FlowCommand)
    ensures c in EligibleCommands(actions) <==> NextAction(c, true) in actions
  {
    if actions != [] {
      EligibleExactly(actions[1..], c);
      assert actions == [actions[0]] + actions[1..];
    }
  }

  lemma {:induction false} TargetExactly(edges: seq<Edge>, c: FlowCommand)
    ensures TargetOf(edges, c).Some? <==> c in Commands(edges)
  {
    if edges != [] {
      TargetExactly(edges[1..], c);
      assert Commands(edges) == [edges[0].command] + Commands(edges[1..]);
    }
  }

  /** The descriptor lists exactly the commands that the flow would accept, at exactly the version it names. */
  lemma DescriptorExactly(s: Snapshot, now: int, ttl: int, c: FlowCommand, at: int)
    ensures var d := DescriptorFor(s, now, ttl);
            c in d.allowedCommands <==> TransitionFlow(s, c, d.stateVersion, at).Ok?
  {
    hide Transitions;
    var actions := NextActions(s);
    EligibleExactly(actions, c);
    TargetExactly(Transitions(s.state), c);
    var commands := Commands(Transitions(s.state));
    if c in commands {
      var i :| 0 <= i < |commands| && commands[i] == c;
      assert actions[i] == NextAction(c, !s.killSwitch || PassesKillSwitch(c));
    }
  }

  /** Used later, a listed command is accepted exactly when no other command has been accepted since the descriptor
      was issued and no kill switch stands in its way. */
  lemma DescriptorLater(s: Snapshot, now: int, ttl: int, steps: seq<Step>, c: FlowCommand, at: int)
    requires c in DescriptorFor(s, now, ttl).allowedCommands
    ensures TransitionFlow(Run(s, steps), c, DescriptorFor(s, now, ttl).stateVersion, at).Ok? <==>
            Accepted(s, steps) == 0 && (Run(s, steps).killSwitch ==> PassesKillSwitch(c))
  {
    hide Transitions;
    DescriptorExactly(s, now, ttl, c, at);
    VersionCounts(s, steps);
    if Accepted(s, steps) == 0 {
      Untouched(s, steps);
    }
  }

  lemma {:induction false} Untouched(s: Snapshot, steps: seq<Step>)
    requires Accepted(s, steps) == 0
    ensures Run(s, steps).(killSwitch := s.killSwitch) == s
    decreases |steps|
  {
    hide NextState;
    if steps != [] {
      Untouched(Next(s, steps[0]), steps[1..]);
    }
  }

  /** The progress guarantee is never breached; and even under a kill switch every flow that has not been superseded
      has an eligible command. */
  lemma ProgressIsNeverBreached(s: Snapshot, now: int, ttl: int)
    ensures ProgressGuarantee(s) == Proven
    ensures s.state != Superseded ==> DescriptorFor(s, now, ttl).allowedCommands != []
  {
    if s.state != Superseded {
      var steps := SupersededIsNear(s, now);
      DescriptorExactly(s, now, ttl, steps[0].command, steps[0].at);
      assert AcceptedBy(s, steps[0]) by { FirstAccepted(s, steps); }
    }
  }

  lemma FirstAccepted(s: Snapshot, steps: seq<Step>)
    requires steps != [] && Accepted(s, steps) == |steps|
    ensures AcceptedBy(s, steps[0])
  {
    AcceptedAtMostAll(Next(s, steps[0]), steps[1..]);
  }

  lemma {:induction false} AcceptedAtMostAll(s: Snapshot, steps: seq<Step>)
    ensures Accepted(s, steps) <= |steps|
    decreases |steps|
  {
    if steps != [] {
      AcceptedAtMostAll(Next(s, steps[0]), steps[1..]);
    }
  }

  // ---------------------------------------------------------------- the store

  datatype Flow = Flow(
    state: WorkflowState, version: int, startedAt: Option<int>, completedAt: Option<int>, lastTransitionAt: int)

  function SnapshotOf(tenant: Text, id: Text, f: Flow, killSwitch: bool): Snapshot {
    Snapshot(tenant, id, f.state, f.version, 1, killSwitch, None, 0, f.lastTransitionAt)
  }

  class WorkflowStore {
    const tenant: Text
    var flows: map<Text, Flow>
    var killSwitch: bool

    constructor (tenant: Text)
      ensures this.tenant == tenant && flows == map[] && !killSwitch
    {
      this.tenant, flows, killSwitch := tenant, map[], false;
    }

    /** The stored row moves exactly as the state machine moves its snapshot; the start is stamped once. */
    method TransitionWorkflow(id: Text, c: FlowCommand, expected: int, now: int) returns (error: Option<FlowError>)
      modifies this`flows
      ensures id !in old(flows) ==> error == Some(FlowMissing)
      ensures error.Some? ==> flows == old(flows)
      ensures id in old(flows) ==>
        match TransitionFlow(SnapshotOf(tenant, id, old(flows)[id], killSwitch), c, expected, now)
        case Err(e) => error == Some(e)
        case Ok(s) =>
          && error.None? && id in flows && flows == old(flows)[id := flows[id]]
          && SnapshotOf(tenant, id, flows[id], killSwitch) == s
          && flows[id].startedAt == (if s.state == Running && old(flows)[id].startedAt.None? then Some(now)
                                     else old(flows)[id].startedAt)
          && flows[id].completedAt == (if s.state in {Completed, Cancelled, Superseded} then Some(now)
                                       else old(flows)[id].completedAt)
    {
      hide Transitions, TargetOf;
      if id !in flows {
        return Some(FlowMissing);
      }
      var flow := flows[id];
      if flow.version != expected {
        return Some(StaleFlowVersion);
      }
      var next := NextState(c, flow.state, killSwitch);
      if next.Err? {
        return Some(next.error);
      }
      var state := next.value;
      var terminal := state == Completed || state == Cancelled || state == Superseded;
      if state == Running && flow.startedAt.None? {
        flow := flow.(startedAt := Some(now));
      }
      if terminal {
        flow := flow.(completedAt := Some(now));
      }
      flows := flows[id := flow.(state := state, version := flow.version + 1, lastTransitionAt := now)];
      return None;
    }
  }
}
