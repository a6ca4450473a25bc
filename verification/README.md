# A Dafny model of the durable delivery, command and evidence core

This project models the parts of the Luzione API that must not go wrong, and proves what they promise.

* **Delivery.** Several workers share a table of messages under time-limited leases. `DeliveryRules` says what each
  store call does to one message and its attempt, checkpoint, dead-letter and receipt rows. `DeliveryOutcomes` states
  column by column what each call asks for and comes to, apart from how the calls are put together. `DeliverySafety`
  holds the inductive invariant, `DeliveryRuns` the theorems about runs of one message, `DeliveryTables` and
  `DeliveryStore` the store itself as a class whose methods work statement by statement. `ProviderWorkers` lets any number of worker
  instances interleave with operators, crashes and the clock; `DeliveryProjection` carries the theorems about one
  message over to every interleaving; `ProviderRuntime` is the batch program as loops; `CausalReadback` is what readers
  see.
* **Commands.** `JsonValues`, `NumberText`, `JsonText` and `CanonicalJson` show that the canonical printout decides
  equality of payloads up to key order. `CommandLedger` and `CommandKernel` build exactly-once execution on it, and
  `ContinuationTokens` the signed continuation of a workflow.
* **Evidence graph.** `CausalGraph` and `CausalNavigation`: cycle search, reachability and the timeline.
* **Money and orders.** `Doubles`, `QuoteMoney`, `OrderConversion`, `OrderStore`; `CommerceCommands` runs them through
  the ledger.
* **Agent commands.** `Reservations` and `ReservationStore`.
* **Fast forms.** `EmailScanner`, `CatalogProjection`, `CatalogRuns`, `CatalogPages`, `WorkflowMachine`.

A class stands for a store whose methods update tables inside one transaction. Its methods are proved equal to
specification functions on the table contents, and runs are sequences of those functions. Each transaction is atomic:
it commits or leaves nothing. Unique keys and check constraints are those of `supabase/migrations`.

Where the code and its documentation or a first reading differ, the model follows the code:

* An operator may close a pending checkpoint without looking at versions, and closing one without a match strands the
  message (`DeliveryRuns.QuiescentExactly`). Closing a leased checkpoint is refused by a check constraint of
  migration 20260831080000, lines 26-36.
* A worker lost on its last permitted check leaves a pending checkpoint that nothing can claim; not every message ends.
* The expiry of a reservation is checked before a replay is recognised, so a replay fails once the reservation has
  expired (`Reservations.ReplayUntilExpiry`), and the result hash of a replay covers the time it was observed
  (`Reservations.ResultHashFollowsTheClock`).
* `canonicalJson` is not injective on all script values; `CanonicalJson.CanonicalExactly` says exactly what it tells
  apart, and `CanonicalJson.ContentIsLost` names what it does not.
* The per-line check for safe totals is implied by the check of the sums (`QuoteMoney.ParseQuoteLines`).

## Model

| member | source | states |
|---|---|---|
| RetryPolicy.JitterBounds | src/modules/platform-guarantees/retryPolicy.ts:11-14 | The jitter, and its rounding to whole milliseconds, leaves between half of a delay and all of it. |
| RetryPolicy.RetryDelayBounds | src/modules/platform-guarantees/retryPolicy.ts:40-46 | A scheduled retry waits at least half the capped backoff, at least the provider's capped request, and at most the policy's maximum. |
| RetryPolicy.BackoffNeverFalls | src/modules/platform-guarantees/retryPolicy.ts:40-43 | The backoff is monotone in the attempt, for all attempts, if and only if the coefficient is at least one or the base delay or the cap is zero. |
| DeliverySafety.FreshIsValid | src/lib/platform-guarantees/postgresCommandStore.ts:121-136 | A message as the command ledger inserts it satisfies the delivery invariant. |
| DeliverySafety.ReclaimKeepsInv | src/lib/platform-guarantees/postgresWorkflowDeliveryStore.ts:72-128 | Reclaiming an expired lease keeps the invariant on both branches: reconciliation after a durable start, otherwise retry or dead letter. |
| DeliverySafety.CloseKeepsInv | src/lib/platform-guarantees/postgresWorkflowDeliveryStore.ts:359-406 | An operator closing a checkpoint keeps the invariant although it looks neither at versions nor at the message's state. |
| DeliverySafety.CompleteKeepsInv | src/lib/platform-guarantees/postgresWorkflowDeliveryStore.ts:452-558 | Completing a leased checkpoint keeps the invariant for every answer, although it never looks at the message's state. |
| DeliverySafety.StepKeepsInv | src/lib/platform-guarantees/postgresWorkflowDeliveryStore.ts:51-558 | Inductive invariant: at most one pending checkpoint, only for the current attempt, and then the message is acknowledged or awaits reconciliation; RETRY_SCHEDULED leaves attempts; a dead letter exists iff DEAD_LETTERED; message and receipt are confirmed together. |
| DeliveryRuns.RunKeepsInv | src/lib/platform-guarantees/postgresWorkflowDeliveryStore.ts:51-558 | The invariant holds after every prefix of every run of accepted steps. |
| DeliveryRuns.TerminalNeverLeft | src/lib/platform-guarantees/postgresWorkflowDeliveryStore.ts:359-558 | No run has a step after SOURCE_CONFIRMED, DEAD_LETTERED or BLOCKED. |
| DeliveryRuns.FindSettlement | src/lib/platform-guarantees/postgresWorkflowDeliveryStore.ts:272-357 | Whenever a dispatched attempt comes to lie behind its message, some step in between settled it, by its owner's retryable failure or a leased NOT_FOUND. |
| DeliveryRuns.NoBlindRetry | src/lib/platform-guarantees/postgresWorkflowDeliveryStore.ts:184-357 | Two durable dispatch starts are of different attempts, and between them the first was settled by its owner's retryable failure or by a leased NOT_FOUND. |
| DeliveryRuns.OnlyAMatchConfirms | src/lib/platform-guarantees/postgresWorkflowDeliveryStore.ts:385-403 | A step confirms a message only on a matched readback with a non-empty reference, and on the leased path only for the committed version. |
| DeliveryRuns.EveryStepFalls | src/lib/platform-guarantees/postgresWorkflowDeliveryStore.ts:51-558 | The rank (attempts left, phase, checks left, leased or not) falls on every step except heartbeats, which leave it. |
| DeliveryRuns.RunIsBounded | src/lib/platform-guarantees/postgresWorkflowDeliveryStore.ts:51-558 | The steps of a run other than heartbeats are at most what the rank lost. |
| DeliveryRuns.DeliveryEnds | supabase/migrations/20260831080000_provider_worker_runtime.sql:25 | A fresh message takes at most a fixed number of steps per delivery attempt, whatever happens. |
| DeliveryRuns.QuiescentExactly | src/lib/platform-guarantees/postgresWorkflowDeliveryStore.ts:411-436 | No worker can ever move a message exactly when it is terminal or stranded on a check that is closed without a match or has used up its budget. |
| DeliveryRuns.OnlyOperatorsClose | src/lib/platform-guarantees/postgresWorkflowDeliveryStore.ts:371-403 | A message is left waiting on a closed checkpoint only by an operator who reported no match. |
| DeliveryRuns.RunIsTimed | src/lib/platform-guarantees/postgresWorkflowDeliveryStore.ts:148-155 | Over every chronological run the lease of a claimed message ends less than 105 seconds after its claim. |
| DeliveryRuns.LeaseOpenedByClaim | src/lib/platform-guarantees/postgresWorkflowDeliveryStore.ts:148-155 | A held lease was opened by the latest claim, carries its owner and its time, and no claim came since. |
| DeliveryRuns.OwnerActsInTime | src/lib/platform-guarantees/postgresWorkflowDeliveryStore.ts:212-226 | A dispatch start, acknowledgement, failure or heartbeat is accepted only from the worker of the latest claim and within 45 seconds of it, whatever the heartbeats. |
| DueSelection.TakeEarliest | src/lib/platform-guarantees/postgresWorkflowDeliveryStore.ts:130-147 | The page taken is in due order, without repeats, leaves out nothing earlier and is full unless everything was taken. |
| DeliveryTables.SweepIsReclaim | src/lib/platform-guarantees/postgresWorkflowDeliveryStore.ts:54-128 | Sweeping expired leases moves each message by at most one accepted reclaim. |
| DeliveryTables.CheckSweepIsRelease | src/lib/platform-guarantees/postgresWorkflowDeliveryStore.ts:411-418 | Releasing expired checkpoint leases in bulk is, message by message, at most one release. |
| DeliveryTables.TakingIsClaim | src/lib/platform-guarantees/postgresWorkflowDeliveryStore.ts:419-446 | Claiming due checkpoints in bulk is, message by message, at most one claim. |
| DeliveryTables.ClaimsKeepAllValid | src/lib/platform-guarantees/postgresWorkflowDeliveryStore.ts:51-166 | A whole delivery claim keeps every message of the tenant valid. |
| DeliveryTables.CheckClaimsKeepAllValid | src/lib/platform-guarantees/postgresWorkflowDeliveryStore.ts:408-450 | A whole reconciliation claim keeps every message of the tenant valid. |
| DeliveryStore.WorkflowDeliveryStore.ReclaimRow | src/lib/platform-guarantees/postgresWorkflowDeliveryStore.ts:72-128 | The statements on an expired row add up to one reclaim step of that message and touch no other. |
| DeliveryStore.WorkflowDeliveryStore.ClaimDueOutbox | src/lib/platform-guarantees/postgresWorkflowDeliveryStore.ts:51-166 | Sweeps the expired leases, then claims the earliest due unswitched messages up to the bounded limit; a bad worker id changes nothing. |
| DeliveryStore.WorkflowDeliveryStore.LockOwnedOutbox | src/lib/platform-guarantees/postgresWorkflowDeliveryStore.ts:212-228 | Hands out the row exactly to the lease's owner before both the lease and the request deadline end. |
| DeliveryStore.WorkflowDeliveryStore.HeartbeatOutbox | src/lib/platform-guarantees/postgresWorkflowDeliveryStore.ts:169-182 | Is the heartbeat step or an error that changes nothing; the request deadline is not extended. |
| DeliveryStore.WorkflowDeliveryStore.RecordDispatchStarted | src/lib/platform-guarantees/postgresWorkflowDeliveryStore.ts:184-210 | Is the durable start step or an error that changes nothing, and returns the attempt it started. |
| DeliveryStore.WorkflowDeliveryStore.RecordProviderAcknowledgement | src/lib/platform-guarantees/postgresWorkflowDeliveryStore.ts:230-270 | Is the acknowledgement step, which needs a start row, or an error that changes nothing. |
| DeliveryStore.WorkflowDeliveryStore.RecordOutboxFailure | src/lib/platform-guarantees/postgresWorkflowDeliveryStore.ts:272-357 | Is the failure step decided by the retry policy, and returns the state it recorded. |
| DeliveryStore.WorkflowDeliveryStore.RecordReconciliation | src/lib/platform-guarantees/postgresWorkflowDeliveryStore.ts:359-406 | Is the operator's step or an error that changes nothing. |
| DeliveryStore.WorkflowDeliveryStore.ClaimDueReconciliations | src/lib/platform-guarantees/postgresWorkflowDeliveryStore.ts:408-450 | Releases expired checkpoint leases, then claims the earliest due checkpoints up to the bounded limit. |
| DeliveryStore.WorkflowDeliveryStore.CompleteClaimedReconciliation | src/lib/platform-guarantees/postgresWorkflowDeliveryStore.ts:452-558 | Is the completion step or an error that changes nothing, and returns whether the check is pending again. |
| DeliveryOutcomes.AnswerAcceptedExactly | src/lib/platform-guarantees/postgresWorkflowDeliveryStore.ts:461-500 | A leased answer is accepted exactly from the owner of the unexpired lease of a pending check, a match only with a reference and the committed version; it writes its own checkpoint, ends the lease and keeps the count. |
| DeliveryOutcomes.InconclusiveExactly | src/lib/platform-guarantees/postgresWorkflowDeliveryStore.ts:485-553 | AMBIGUOUS or SOURCE_UNAVAILABLE on checks one to four moves nothing but the check, which stays pending with a wait of 1, 2, 4 or 8 seconds; on the fifth it blocks the message. |
| DeliveryOutcomes.MismatchBlocks | src/lib/platform-guarantees/postgresWorkflowDeliveryStore.ts:544-553 | VERSION_MISMATCH blocks the message on any check and touches neither receipt nor attempts. |
| DeliveryOutcomes.NotFoundExactly | src/lib/platform-guarantees/postgresWorkflowDeliveryStore.ts:523-543 | NOT_FOUND schedules a retry at once if and only if attempts are left; otherwise the message is dead-lettered for an operator. |
| DeliveryOutcomes.MatchConfirms | src/lib/platform-guarantees/postgresWorkflowDeliveryStore.ts:501-522 | MATCHED confirms message and receipt with the same reference and time and notes the reference on the current attempt. |
| DeliveryOutcomes.ChecksAreCounted | src/lib/platform-guarantees/postgresWorkflowDeliveryStore.ts:419-446 | Over every run a checkpoint's attempt count is the number of claims of that check. |
| DeliveryOutcomes.BlockedExactly | src/lib/platform-guarantees/postgresWorkflowDeliveryStore.ts:485-553 | Over every run a message is BLOCKED exactly when its last step was a leased VERSION_MISMATCH or an inconclusive answer to a check that had been claimed five times. |
| DeliveryOutcomes.ReclaimExactly | src/lib/platform-guarantees/postgresWorkflowDeliveryStore.ts:54-128 | An expired lease is reclaimed: with a start row into reconciliation with a fresh check, without one into a retry exactly while attempts are left and else into a dead letter. |
| DeliveryOutcomes.ClaimExactly | src/lib/platform-guarantees/postgresWorkflowDeliveryStore.ts:130-155 | A claim takes exactly a waiting message whose time has come, for 60 seconds of lease and 45 of requests, and spends one attempt. |
| DeliveryOutcomes.OwnerStepsExactly | src/lib/platform-guarantees/postgresWorkflowDeliveryStore.ts:169-228 | Heartbeat and dispatch start are accepted exactly from the owner before lease and request deadline end, the start only once per attempt; each changes only its own columns. |
| DeliveryOutcomes.AcknowledgeExactly | src/lib/platform-guarantees/postgresWorkflowDeliveryStore.ts:230-270 | An acknowledgement is accepted exactly with a reference and after the start row of the attempt, and opens a check. |
| DeliveryOutcomes.FailExactly | src/lib/platform-guarantees/postgresWorkflowDeliveryStore.ts:272-357 | A recorded failure is retried if and only if it came before acknowledgement and attempts are left, within the backoff bounds; reconciled if and only if ambiguous; dead-lettered otherwise. |
| DeliveryOutcomes.OperatorExactly | src/lib/platform-guarantees/postgresWorkflowDeliveryStore.ts:359-406 | An operator's closing is accepted exactly on a pending unleased check, and moves message and receipt exactly for a match. |
| DeliveryOutcomes.CheckLeasesExactly | src/lib/platform-guarantees/postgresWorkflowDeliveryStore.ts:408-446 | A check is claimed exactly when pending, unleased, due and claimed fewer than five times; an expired lease is released and due at once. |
| DeliveryOutcomes.LimitExactly | src/lib/platform-guarantees/postgresWorkflowDeliveryStore.ts:13 | A batch takes ten rows by default and never fewer than one or more than fifty. |
| DeliveryOutcomes.CandidateExactly | src/lib/platform-guarantees/postgresWorkflowDeliveryStore.ts:133-143 | A message can be claimed exactly when it waits, is due, has attempts left, is unlocked, and no global or destination switch is active. |
| DeliveryOutcomes.PageInDueOrder | src/lib/platform-guarantees/postgresWorkflowDeliveryStore.ts:144-146 | Each claimed message was due no later than any other candidate after it, and at one time is no younger. |
| DeliveryOutcomes.ChecksInDueOrder | src/lib/platform-guarantees/postgresWorkflowDeliveryStore.ts:419-428 | Each claimed check was due no later than any other candidate after it, and at one time was checked no later. |
| DeliveryOutcomes.ClaimBatchExactly | src/lib/platform-guarantees/postgresWorkflowDeliveryStore.ts:51-166 | Message by message, a delivery claim is the reclaim of an expired unlocked lease and then the claim of the chosen messages, and nothing else. |
| DeliveryOutcomes.ClaimChecksExactly | src/lib/platform-guarantees/postgresWorkflowDeliveryStore.ts:408-450 | Message by message, a reconciliation claim is the release of an expired lease and then the claim of the chosen check, and nothing else. |
| DeliveryOutcomes.SwitchesStopClaims | src/lib/platform-guarantees/postgresWorkflowDeliveryStore.ts:138-143 | In every interleaving no batch claims anything under a global kill switch, nor a message whose destination is switched off. |
| ProviderWorkers.StepKeepsSystemInv | src/modules/provider-runtime/runtime.ts:46-135 | The system invariant (all messages valid, calls distinct and durably started, no two workers about to make one call) is kept by every action of workers, operators, crashes and clock. |
| ProviderWorkers.SystemRunKeepsInv | src/modules/provider-runtime/runtime.ts:46-135 | The system invariant holds in every reachable state of every interleaving. |
| ProviderWorkers.ProviderCallsAreBounded | src/modules/provider-runtime/runtime.ts:80-83 | In every interleaving execute is called at most once per attempt and at most max_attempts times per message, each time with the durable start row of that attempt. |
| ProviderWorkers.CallsFollowDurableStarts | src/modules/provider-runtime/runtime.ts:80-83 | The only action that calls execute is a worker whose start row is in the table and was not used for a call before. |
| ProviderWorkers.OutcomesAreRecorded | src/modules/provider-runtime/runtime.ts:46-99 | Each outcome a delivery batch reports is the outbox state that the store recorded at that very step. |
| ProviderWorkers.AnswerExactly | src/modules/provider-runtime/contracts.ts:119-133 | A well-formed acknowledgement or failure is recorded as such; anything else after the start, a thrown error included, is recorded as ambiguous. |
| DeliveryProjection.StepSeenFrom | src/modules/provider-runtime/runtime.ts:46-135 | Seen from one message, any action of the system is at most two of that message's own steps, namely the events this action stands for, at the system's clock. |
| DeliveryProjection.MessageHistory | src/modules/provider-runtime/runtime.ts:46-135 | Every message of every reachable state has a chronological history of its own accepted steps that follows the run: it holds the message's row of every state since the message appeared, and between two of them only events of the action between them, at its clock. |
| DeliveryProjection.NoBlindRetryAnywhere | src/lib/platform-guarantees/postgresWorkflowDeliveryStore.ts:184-357 | In every interleaving, if attempts n < m both have a durable start, some action k of the run about this message settled n while n was current (the owner's retryable failure or a leased NOT_FOUND), a later action l dispatched m, and the rows still show the settlement. |
| DeliveryProjection.DeliveryEndsAnywhere | src/lib/platform-guarantees/postgresWorkflowDeliveryStore.ts:51-558 | In every run of the system at most a fixed number of actions per delivery attempt, plus one, change anything about one message, heartbeats aside. |
| DeliveryProjection.LeasesEndAnywhere | src/lib/platform-guarantees/postgresWorkflowDeliveryStore.ts:148-155 | In every interleaving a held lease belongs to the worker of the last batch of the run that claimed the message, carries that action's time, and ends less than 105 seconds after it. |
| DeliveryProjection.OwnersActInTimeAnywhere | src/lib/platform-guarantees/postgresWorkflowDeliveryStore.ts:212-226 | In every interleaving a dispatch start, acknowledgement, failure or heartbeat is accepted only from the worker of the last batch that claimed the message, and within 45 seconds of that action. |
| ProviderRuntime.HandledIsSound | src/modules/provider-runtime/runtime.ts:50-96 | One message of a batch: only that message moves, the reported state is the state on record, and execute is called only for a message that is not refused, after the durable start of an attempt that had none. |
| ProviderRuntime.HandledExactly | src/modules/provider-runtime/runtime.ts:50-96 | A freshly claimed message is reported exactly when the calls about it come within 45 seconds of the claim, whatever the adapter does. |
| ProviderRuntime.VerdictExactly | src/modules/provider-runtime/contracts.ts:135-144 | An observation goes through unless it is a match without reference or at another version, or overlong; otherwise it reads as a version mismatch or an unavailable source, and exactly when which. |
| ProviderRuntime.RefusalExactly | src/modules/provider-runtime/runtime.ts:50-79 | Unreadable rows and requests are contract violations, unregistered adapters permanent failures, disabled effects policy blocks; everything else is sent. |
| ProviderRuntime.BatchIsSound | src/modules/provider-runtime/runtime.ts:46-99 | A batch over distinct messages reports the first of them in order with the states on record at the end, calls execute at most once for each and only after a durable start, reports all of them when no call is refused, and leaves alone what comes after a refused call. |
| ProviderRuntime.BatchExactly | src/modules/provider-runtime/runtime.ts:46-99 | A batch over freshly claimed messages reports all of them exactly when all its calls come within 45 seconds of the claim. |
| ProviderRuntime.CheckedExactly | src/modules/provider-runtime/runtime.ts:121-131 | A claimed check is reported exactly when its lease still holds, always with the verdict on the adapter's answer, and MATCHED only for a match with a reference and the committed version; so the second completion never helps. |
| ProviderRuntime.ChecksAreSound | src/modules/provider-runtime/runtime.ts:101-135 | A reconciliation batch keeps every message valid, every reported result shows in the tables at the end, and only messages with a claimed check move. |
| ProviderRuntime.ChecksExactly | src/modules/provider-runtime/runtime.ts:101-135 | A batch over freshly claimed checks reports all of them exactly when all are completed before their leases end, each with the verdict on its adapter's answer. |
| ProviderRuntime.ProviderWorkerRuntime.Deliver | src/modules/provider-runtime/runtime.ts:50-96 | Is the failure step of a refusal, or the start step and then the step that settles the adapter's answer, each at its time; execute is called exactly when the start was accepted. |
| ProviderRuntime.ProviderWorkerRuntime.RunDeliveryBatch | src/modules/provider-runtime/runtime.ts:46-99 | Claims the earliest due messages up to the bounded limit and handles them in order until a call is refused; all are reported exactly when the calls come within 45 seconds; reports are the states on record at the end; execute is called at most once for each message, after a durable start; a bad worker id changes nothing. |
| ProviderRuntime.ProviderWorkerRuntime.Complete | src/modules/provider-runtime/runtime.ts:121-131 | Is the completion step of the verdict on the adapter's answer; only an observation that passed the gate and was refused by the store is completed as SOURCE_UNAVAILABLE instead; the reported result is what the rows show. |
| ProviderRuntime.ProviderWorkerRuntime.RunReconciliationBatch | src/modules/provider-runtime/runtime.ts:101-135 | Claims the earliest due checks and completes them in order; all are reported exactly when completed before their leases end, each with the verdict on its adapter's answer; every reported result shows in the tables at the end; a bad worker id changes nothing. |
| CausalReadback.FinalityExactly | src/modules/platform-contracts/readbackContract.ts:86-168 | Each finality and freshness is reported exactly under its condition on confirmation, window, checks and acknowledgement; acknowledgement alone is never final. |
| CausalReadback.FinalityOnlyExpires | src/modules/platform-contracts/readbackContract.ts:86-103 | Finality is antitone in time: what is final later was final earlier, so once stale it stays stale. |
| CausalReadback.FinalOnlyAfterMatch | src/lib/platform-guarantees/readService.ts:65-130 | For a valid delivery, finality implies SOURCE_CONFIRMED in message and receipt and a checkpoint closed as MATCHED, on the leased path for the committed version; an acknowledged message reads back as RECONCILING. |
| CausalReadback.FinalEndsTheRun | src/lib/platform-guarantees/readService.ts:65-130 | Over every run a message reads back as final only in its last state, reached by a matched readback with evidence, on the leased path of the committed version. |
| NumberText.NumberRoundTrip | src/modules/platform-guarantees/eventContract.ts:53-55 | Number text as ECMAScript prescribes it can be read back to the same sign, digits and exponent. |
| NumberText.CheckpointIdsDiffer | src/lib/platform-guarantees/postgresWorkflowDeliveryStore.ts:74 | Checkpoint ids of different messages or attempts differ, although message ids may contain underscores and digits. |
| JsonValues.NormalizeIsIdempotent | src/modules/platform-guarantees/eventContract.ts:32-51 | Normalising a normalised payload changes nothing. |
| JsonValues.NormalFormsDecideSameness | src/modules/platform-guarantees/eventContract.ts:32-51 | Two plain payloads have the same normal form if and only if they are equal up to object key order. |
| JsonValues.SortedUnique | src/modules/platform-guarantees/eventContract.ts:36-43 | An object in enumeration order is determined by what each key holds. |
| JsonText.QuotedRoundTrip | src/modules/platform-guarantees/eventContract.ts:53-55 | A printed string literal, with its escapes and surrogates, reads back to the string (section 7 of RFC 8259). |
| JsonText.PrintRoundTrip | src/modules/platform-guarantees/eventContract.ts:53-55 | A parser undoes the printer on every plain value, whatever delimited text follows; so the printer is injective. |
| CanonicalJson.CanonicalReadsBack | src/modules/platform-guarantees/eventContract.ts:53-55 | The canonical text of any accepted payload parses back to the normal form of its content and nothing is left over. |
| CanonicalJson.CanonicalExactly | src/modules/platform-guarantees/eventContract.ts:53-59 | Canonical texts are equal if and only if the contents of the payloads are equal up to key order. |
| CanonicalJson.HashExactly | src/modules/platform-guarantees/eventContract.ts:57-59 | With an injective digest, payload hashes are equal if and only if the contents agree up to key order. |
| CanonicalJson.ContentIsLost | src/modules/platform-guarantees/eventContract.ts:32-51 | Outside plain JSON different payloads print alike: non-finite numbers and null, negative zero and zero, a Date and its text, a `__proto__` key and no key. |
| ContinuationTokens.NumberOfIsExact | src/modules/platform-guarantees/eventContract.ts:179-180 | A version written as a JSON number reads back as the same integer. |
| ContinuationTokens.DescriptorIsAcceptable | src/modules/platform-guarantees/eventContract.ts:176-189 | The normal form of a descriptor passes every field check of the token reader. |
| ContinuationTokens.TokenRoundTrip | src/modules/platform-guarantees/eventContract.ts:160-190 | A token presented under the secret that signed it is accepted if and only if it has not expired, and yields the descriptor up to key order. |
| ContinuationTokens.VerifyExactly | src/modules/platform-guarantees/eventContract.ts:167-190 | A token of two parts is accepted exactly with the right code, a complete descriptor of known commands and positive versions, and before its expiry. |
| CommandLedger.RunKeepsConsistent | src/modules/platform-guarantees/commandKernel.ts:55-146 | Over every run of calls, receipts, events, outbox rows and committed owner mutations correspond one to one, keys are unique, and the owner's history has no gap. |
| CommandLedger.CreateRequestExactly | src/modules/platform-guarantees/commandKernel.ts:39-50 | A request is created exactly for a sendable payload with all its references, and carries the digest of the canonical text. |
| CommandLedger.AcceptedExactly | src/modules/platform-guarantees/commandKernel.ts:64-138 | A call is accepted exactly under a new key, with a successful mutation, a complete envelope, free ids and a permitted delivery plan; then it writes one row to each table and the mutation. |
| CommandLedger.RepeatedExactly | src/modules/platform-guarantees/commandKernel.ts:64-82 | A used key replays the receipt for the same hash and records a conflict for another, and changes nothing else. |
| CommandLedger.AcceptedOnce | src/modules/platform-guarantees/commandKernel.ts:64-82 | After an accepted call, whatever happens in between, the same hash returns the original receipt and changes nothing, and another hash adds at most one conflict record and changes nothing else. |
| CommandLedger.ConflictIsRecorded | src/lib/platform-guarantees/postgresCommandStore.ts:139-162 | A different hash under a used key is recorded as a conflict unless its random id is already taken. |
| CommandLedger.MutationsAreAccepts | src/modules/platform-guarantees/commandKernel.ts:84-138 | The owner mutations committed under a key are exactly the accepted calls under it. |
| CommandLedger.AtMostOneAccept | src/modules/platform-guarantees/commandKernel.ts:55-146 | From empty tables each tenant and key is accepted at most once over any run, including owners that throw. |
| CommandLedger.OwnerKeeps | src/modules/platform-guarantees/commandKernel.ts:84-89 | Any property that every owner mutation keeps holds of the owner tables after every run of the ledger. |
| CommandLedger.ReplayMeansSamePayload | src/modules/platform-guarantees/commandKernel.ts:39-50 | With an injective digest, two requests carry one hash if and only if their payloads agree in content up to key order. |
| CommandKernel.CommandTransaction.BindTenant | src/lib/platform-guarantees/postgresCommandStore.ts:40-48 | A transaction serves its first tenant and refuses every other. |
| CommandKernel.CommandTransaction.FindReceipt | src/lib/platform-guarantees/postgresCommandStore.ts:53-68 | Returns the first receipt under the tenant and key after binding the tenant. |
| CommandKernel.CommandTransaction.InsertAccepted | src/lib/platform-guarantees/postgresCommandStore.ts:70-137 | Inserts all three rows or reports that a unique key or check refused one. |
| CommandKernel.LifecycleCommandKernel.InTransaction | src/modules/platform-guarantees/commandKernel.ts:63-139 | The body of the transaction yields the rules' outcome, leaving conflicts and failures to the rollback. |
| CommandKernel.LifecycleCommandKernel.Submit | src/modules/platform-guarantees/commandKernel.ts:55-146 | Tables and outcome after a call are exactly what the ledger's rules say, with rollback and the separately recorded conflict. |
| CausalGraph.Adjacency | src/modules/platform-causality/navigation.ts:43-47 | The adjacency map lists for every node the targets of its edges in their order. |
| CausalGraph.CycleSearch.Visit | src/modules/platform-causality/navigation.ts:50-58 | A reported cycle can be reached from the node; otherwise the node ends up among visited nodes that are closed under edges and lie on no cycle. The recursion ends. |
| CausalGraph.FindCycle | src/modules/platform-causality/navigation.ts:48-59 | Reports a cycle if and only if one can be reached from a listed node. |
| CausalGraph.CycleOfListedNodes | src/modules/platform-causality/navigation.ts:45-59 | When both ends of every edge are listed, that is the case if and only if the edges have a directed cycle at all. |
| CausalGraph.ReachableFrom | src/modules/platform-causality/navigation.ts:78-88 | The loop ends with exactly the reflexive transitive closure of the root. |
| CausalNavigation.NodeViolations | src/modules/platform-causality/navigation.ts:34-42 | Reports every node finding in order and collects exactly the listed ids. |
| CausalNavigation.CausalGraphViolations | src/modules/platform-causality/navigation.ts:33-61 | Node findings, then edge findings, then the cycle finding iff a cycle is reachable from a listed node. |
| CausalNavigation.NoViolationExactly | src/modules/platform-causality/navigation.ts:33-61 | No violation if and only if ids are distinct, evidence is well formed, every edge's ends are listed and there is no directed cycle. |
| CausalNavigation.FindingsExactly | src/modules/platform-causality/navigation.ts:34-42 | Each node finding is made exactly when some node has that fault. |
| CausalNavigation.EdgeFindingsAre | src/modules/platform-causality/navigation.ts:43-47 | An edge finding is made exactly for a listed edge with an unlisted end. |
| CausalNavigation.SortOrders | src/modules/platform-causality/navigation.ts:89-92 | The timeline is in order of time, then of the locale's place of the id. |
| CausalNavigation.OrderedExactly | src/modules/platform-causality/navigation.ts:89-92 | In order means that times never fall, and at one time the locale's places never fall. |
| CausalNavigation.SortIsStable | src/modules/platform-causality/navigation.ts:89-92 | Nodes that tie keep the caller's order. |
| CausalNavigation.BuildCausalNavigation | src/modules/platform-causality/navigation.ts:63-110 | Succeeds exactly for an identified caller, a sound graph, a listed root and nodes of one tenant; the timeline then lists every reachable node once, in order. |
| CausalNavigation.ConfirmedExactly | src/modules/platform-causality/navigation.ts:93-109 | A confirming readback is reported exactly when a READBACK node is reachable, and it is an earliest one with an authoritative reference. |
| Doubles.RoundIsNearest | src/modules/proposal-quote-approval/contracts.ts:145-159 | No double is nearer to an exact result than the rounded one (section 4.3.1 of IEEE 754-2019). |
| Doubles.TiesGoToEven | src/modules/proposal-quote-approval/contracts.ts:145-159 | Halfway between two doubles the even one is taken. |
| Doubles.SafeExactly | src/modules/proposal-quote-approval/contracts.ts:145-147 | A rounded result is a safe integer if and only if the exact one is, and then they are equal. |
| QuoteMoney.ParseLine | src/modules/proposal-quote-approval/contracts.ts:137-155 | Accepts a line exactly when its fields are valid, its number is new and its exact totals are safe integers. |
| QuoteMoney.TotalsIgnoreOrder | src/modules/proposal-quote-approval/contracts.ts:157-158 | Subtotal and cost are the same for every arrangement of the lines. |
| QuoteMoney.LastSumDecides | src/modules/proposal-quote-approval/contracts.ts:157-159 | The check after the summation in doubles accepts if and only if the exact totals are at most 2^53 - 1, and then the totals are exact. |
| QuoteMoney.NothingWasRounded | src/modules/proposal-quote-approval/contracts.ts:145-159 | When the totals are safe, every product and every partial sum was exact. |
| QuoteMoney.ParseQuoteLines | src/modules/proposal-quote-approval/contracts.ts:133-159 | Accepts exactly the lists of 1 to 200 valid lines with unique numbers and safe exact totals, and returns them ascending. |
| QuoteMoney.AcceptableExactly | src/modules/proposal-quote-approval/contracts.ts:133-159 | The bounds in numbers: up to 200 lines with different numbers, numbers and quantities of 1 to a million, cents and totals up to the largest safe integer. |
| QuoteMoney.OrderIsIrrelevant | src/modules/proposal-quote-approval/contracts.ts:156-159 | A permutation of an acceptable list is acceptable and gives the same lines. |
| QuoteMoney.MarginsAddUp | src/modules/proposal-quote-approval/store.ts:193-209 | The margins stored with the lines add up to the stored margin of the quote, subtotal minus cost, without rounding. |
| OrderConversion.RunKeepsValid | src/modules/order-fulfillment/store.ts:47-76 | Over every run of commands and legacy status writes: an order belongs to the quote that names it and copies its terms, a converted quote that needed approval has it, every intent matches its order. |
| OrderConversion.RunExtends | src/modules/proposal-quote-approval/store.ts:228-239 | Terms, economics versions, recorded decisions and order references never change once written. |
| OrderConversion.OneOrderPerQuote | src/modules/order-fulfillment/store.ts:47-60 | Over every run a quote is converted to at most one order. |
| OrderConversion.ConvertedIsFinal | src/modules/proposal-quote-approval/store.ts:228-239 | Once converted, a quote keeps its terms and its order over every run, and every later decision or conversion of it fails. |
| OrderConversion.CreateQuoteExactly | src/modules/proposal-quote-approval/store.ts:184-212 | A quote is created exactly under a new id when case and policy admit it, undecided, and as a draft exactly when no approval is required. |
| OrderConversion.DecideExactly | src/modules/proposal-quote-approval/store.ts:228-240 | A decision is accepted exactly once, from an authorized person, at the expected version of a quote that needs it; approving makes it approved and rejecting rejected. |
| OrderConversion.CreateOrderExactly | src/modules/order-fulfillment/store.ts:47-60 | A conversion is accepted if and only if the quote is at the expected version, CUSTOMER_ACCEPTED, unconverted, approved if needed and has lines, and the order is new; the order then has the quote's terms. |
| OrderConversion.RequestIntentExactly | src/modules/order-fulfillment/store.ts:69-76 | An intent is recorded if and only if the order is at the expected version, the intent asks for exactly its lines, and id and key are new. |
| OrderConversion.OrdersWereAccepted | src/modules/order-fulfillment/store.ts:47-60 | Over every run each order was written by one step of the run, before which its quote was CUSTOMER_ACCEPTED, unconverted, and approved if it needed approval. |
| OrderConversion.DecisionsWereAuthorized | src/modules/proposal-quote-approval/store.ts:228-240 | Over every run each recorded decision was made by one step of the run by someone authorized, and set the status it means. |
| OrderConversion.OrderTotals | src/modules/order-fulfillment/store.ts:54-58 | The total of every order is its quote's subtotal and the sum of its copied lines, and it has as many lines. |
| OrderConversion.IntentExactly | src/modules/order-fulfillment/store.ts:69-75 | For unique line numbers, the test by membership and count holds if and only if the intent's line map equals the order's. |
| OrderConversion.IntentEqualsOrder | src/modules/order-fulfillment/store.ts:69-76 | Over every run, each recorded intent requests exactly the lines and quantities of its order. |
| OrderStore.ParseIntent | src/modules/order-fulfillment/contracts.ts:56-70 | Accepts exactly 1 to 200 lines of positive integers with unique numbers and no foreign field, and returns them ascending. |
| OrderStore.IntentFieldsExactly | src/modules/order-fulfillment/contracts.ts:56-70 | A requested line has nothing but a number and a quantity, both from 1 to a million. |
| OrderStore.CommerceStore.CreateQuote | src/modules/proposal-quote-approval/store.ts:184-212 | Writes the quote with its lines and exact totals, or changes nothing and reports why. |
| OrderStore.CommerceStore.DecideQuote | src/modules/proposal-quote-approval/store.ts:228-240 | Records one decision for the economics version, or changes nothing and reports why. |
| OrderStore.CommerceStore.CreateOrder | src/modules/order-fulfillment/store.ts:47-60 | Writes order, copied lines and conversion mark together, or changes nothing and reports why. |
| OrderStore.CommerceStore.RequestIntent | src/modules/order-fulfillment/store.ts:69-76 | Records an intent that matches its order exactly, or changes nothing and reports why. |
| CommerceCommands.LedgerKeepsCommerce | src/modules/order-fulfillment/store.ts:40-45 | Executed through the command ledger, with replays, conflicts and failures anywhere, the commerce tables stay valid and no quote has two orders. |
| Reservations.RunKeepsValid | src/modules/sultan-agent-gateway/postgresStore.ts:180-277 | Over every run a reservation is executed iff it names its action, and each action repeats what was reserved and approved. |
| Reservations.RunExtends | src/modules/sultan-agent-gateway/postgresStore.ts:219-277 | Over every run payloads and all other fields of actions stay, ARCHIVED is never undone and executed reservations never change. |
| Reservations.OneOfEach | src/modules/sultan-agent-gateway/postgresStore.ts:180-277 | Over every run an operation has at most one reservation and a reservation at most one action. |
| Reservations.ArchivedIsNamed | src/modules/sultan-agent-gateway/internalActionArchive.ts:5-25 | Over every run an ARCHIVED action is a task, draft or proposal revision that a recorded archive action of the same case and campaign names. |
| Reservations.ActionsAreApproved | src/modules/sultan-agent-gateway/service.ts:250-262 | Every recorded action was approved by a person for exactly the reserved command. |
| Reservations.ApprovalExactly | src/modules/sultan-agent-gateway/service.ts:250-262 | A request is refused for its approval if and only if it is not a correctly signed approval of exactly this command by a person, inside the clock skew, the expiry and the 15 minutes. |
| Reservations.ActionsWereSigned | src/modules/sultan-agent-gateway/service.ts:250-262 | Over every run each action on record was recorded by one step of the run whose approval was signed for exactly this command and stood at that time. |
| Reservations.ExecuteExactly | src/modules/sultan-agent-gateway/postgresStore.ts:219-277 | In valid tables a request is executed if and only if it is approved, the command can still run, and it was executed before or its rows are free and its archive target stands. |
| Reservations.ArchiveExactly | src/modules/sultan-agent-gateway/internalActionArchive.ts:5-25 | An archive action goes through if and only if the case is at the expected version and the target is as it was; it archives the target once and nothing else. |
| Reservations.PrepareExactly | src/modules/sultan-agent-gateway/postgresStore.ts:180-217 | Preparing succeeds exactly for a new operation, or one reserved with the same hash, and reserves for 15 minutes. |
| Reservations.ReplayUntilExpiry | src/modules/sultan-agent-gateway/postgresStore.ts:232-239 | After an execution every later approved request reports the same receipt id and runs nothing until the reservation expires, and only an expiry error afterwards. |
| ReservationStore.GatewayStore.PrepareCommand | src/modules/sultan-agent-gateway/postgresStore.ts:180-217 | Reserves, replays the reservation of the same command, or refuses without a change. |
| ReservationStore.GatewayStore.ArchiveInternalAction | src/modules/sultan-agent-gateway/internalActionArchive.ts:5-25 | Archives the target exactly under the stated case, scope, tool, version and payload checks; an archived target stays as it is. |
| ReservationStore.GatewayStore.ExecuteCommand | src/modules/sultan-agent-gateway/postgresStore.ts:219-277 | Commits archival, action and reservation together or leaves no trace of any of them. |
| EmailScanner.CharactersExactly | src/modules/sultan-agent-gateway/service.ts:365-395 | Which characters an address may have before and after its at sign. |
| EmailScanner.FirstAtDecides | src/modules/sultan-agent-gateway/service.ts:365-395 | The first at sign has the longest run of address characters on either side as its address, and reading goes on behind it. |
| EmailScanner.OneAtExactly | src/modules/sultan-agent-gateway/service.ts:365-395 | A text with one at sign is reported exactly when its one address is well shaped and not the allowed one. |
| EmailScanner.CheckCandidate | src/modules/sultan-agent-gateway/service.ts:376-393 | Reads the domain after an at sign and decides shape and allowance of the address as the recursive reading does. |
| EmailScanner.HasBoundedShape | src/modules/sultan-agent-gateway/service.ts:384-391 | Searching backwards for the last dot decides whether some dot splits the domain into a non-empty part and at least two letters. |
| EmailScanner.ContainsEmailOtherThan | src/modules/sultan-agent-gateway/service.ts:365-395 | Returns true if and only if the recursive leftmost, non-overlapping reading has a well-shaped address other than the allowed one, with work linear in the text. |
| CatalogProjection.FirstMappingIsMostRecent | src/modules/catalog-projection/store.ts:94-135 | The mapping found for a name is that of the most recent row mentioning it, and none only if no row does. |
| CatalogProjection.ReadMappings | src/modules/catalog-projection/store.ts:94-135 | Collects one piece of evidence for exactly the names that some row mentions, each from the most recent such row. |
| CatalogProjection.MappingIndex | src/modules/catalog-projection/runtime.ts:299-303 | Every name leads to the most recent row mentioning it, and unmentioned names to none. |
| CatalogProjection.WalkProducts | src/modules/catalog-projection/runtime.ts:319-390 | The walk succeeds exactly when source identities are unique, and selects every variant in order. |
| CatalogProjection.BuildCompletion | src/modules/catalog-projection/runtime.ts:310-447 | Fails exactly on a repeated source identity; otherwise the selections, counts and coverage are those of the completed walk. |
| CatalogProjection.CompletionIsSound | src/modules/catalog-projection/runtime.ts:392-447 | Coverage is 100 exactly when the counts are exact and match; eligible plus blocked is the number observed; anything eligible means a match; selectable iff no blocked reason. |
| CatalogProjection.ItemsExactly | src/modules/catalog-projection/runtime.ts:319-323 | The walk covers exactly the variants of its products, a product without variants counting as one. |
| CatalogProjection.IdentityExactly | src/modules/catalog-projection/runtime.ts:324-331 | Two variants collide exactly when product and variant id agree, a missing id reading as default. |
| CatalogProjection.CoverageExactly | src/modules/catalog-projection/runtime.ts:397-404 | Coverage is the worse of the two shares to the nearest hundredth of a percent, and 100 exactly for exact counts. |
| CatalogRuns.SelectionExactly | src/modules/catalog-projection/runtime.ts:332-375 | The i-th selection is selectable if and only if the counts are exact, the product is active, the variant has an id and the evidence on it is accepted and current; and each reason is given exactly when it applies. |
| CatalogRuns.RowsExactly | src/modules/catalog-projection/store.ts:259-310 | After an ingest every observed row is selectable exactly when its item is offerable, every other row is stale, and every item has its row. |
| CatalogRuns.SelectableWasOfferable | src/modules/catalog-projection/store.ts:137-433 | Over every run of ingests whatever is selectable was offerable in the last ingest that changed the table. |
| CatalogRuns.IngestKeepsValid | src/modules/catalog-projection/store.ts:259-310 | Marking everything stale and writing the observed projections keeps the table's invariant. |
| CatalogRuns.RunKeepsValid | src/modules/catalog-projection/store.ts:137-433 | Over every run of ingests and replays: selectable iff no blocked reason; a selectable row was observed in the latest run, which was CURRENT; the table has as many selectable rows as that run counted eligible. |
| CatalogRuns.ReplayIsRecorded | src/modules/catalog-projection/store.ts:157-178 | Ingesting again under a key returns the recorded run and changes nothing, whatever came between, and a different command under it is refused. |
| CatalogRuns.CatalogStore.IngestProjection | src/modules/catalog-projection/store.ts:137-433 | Is one ingest of the rules, or an error that changes nothing, and returns the run on record. |
| CatalogPages.NextPage | src/modules/catalog-projection/store.ts:490-535 | From any position, one page is the next rows up to the limit, with a cursor iff more follow. |
| CatalogPages.CollectPages | src/modules/catalog-projection/store.ts:449-535 | For every limit from 1, following the cursors over an unchanging table collects each matching row once, in order. |
| WorkflowMachine.VersionCounts | src/modules/platform-guarantees/stateMachine.ts:49-69 | The version rises by exactly the number of accepted commands over every run. |
| WorkflowMachine.AtMostOnePerVersion | src/modules/platform-guarantees/stateMachine.ts:55-57 | Of all commands that expect one version at most one is accepted, and none once the version is past. |
| WorkflowMachine.SupersededAbsorbs | src/modules/platform-guarantees/stateMachine.ts:28 | No run leaves SUPERSEDED. |
| WorkflowMachine.SupersededIsNear | src/modules/platform-guarantees/stateMachine.ts:3-30 | From every other state one or two accepted commands reach SUPERSEDED, even under a standing kill switch. |
| WorkflowMachine.NeverEntered | src/modules/platform-guarantees/stateMachine.ts:3-30 | No run enters COMPENSATING or returns to PLANNED. |
| WorkflowMachine.CommandExactly | src/modules/platform-guarantees/stateMachine.ts:3-47 | For every command: the states that accept it, where it leads, and that a kill switch leaves only cancel, quarantine, reconcile and supersede. |
| WorkflowMachine.TransitionExactly | src/modules/platform-guarantees/stateMachine.ts:49-69 | A transition is accepted exactly at the present version for a command that leads somewhere and is not blocked, and changes state, version and time only. |
| WorkflowMachine.EnteredBy | src/modules/platform-guarantees/stateMachine.ts:3-30 | Over every run the state reached was entered by an accepted command that leads there: COMPLETED only by a source readback, FAILED only by a failing step, and so on. |
| WorkflowMachine.DescriptorExactly | src/modules/platform-guarantees/flowExplainer.ts:65-94 | The continuation descriptor lists exactly the commands that the flow accepts at the version it names. |
| WorkflowMachine.DescriptorLater | src/modules/platform-guarantees/flowExplainer.ts:86-94 | Used later, a listed command is accepted iff no command was accepted since and no kill switch blocks it. |
| WorkflowMachine.ProgressIsNeverBreached | src/modules/platform-guarantees/flowExplainer.ts:33 | G-006 is never BREACHED, and every flow not superseded has an eligible command even under a kill switch. |
| WorkflowMachine.WorkflowStore.TransitionWorkflow | src/lib/platform-guarantees/postgresWorkflowDeliveryStore.ts:759-801 | Moves the stored row exactly as the state machine moves its snapshot, touching no other flow, or changes nothing. |

## Left out

- Tenants and row-level security: the delivery, reservation, catalog and workflow modules model one tenant's rows; only the command ledger and the commerce tables carry the tenant.
- SQL text, pools, locks and isolation levels: a transaction is one atomic step, and rows locked elsewhere are a parameter of the claims.
- Cryptography: SHA-256, HMAC and base64url are uninterpreted functions, with the laws that a lemma names and no others.
- Random identifiers: parameters without any assumption of freshness; a collision is refused by the unique keys.
- Evidence columns that no branch reads: notes, summaries, adapter versions, heartbeat and dispatch timestamps.
- Outbox states DISPATCHED and CANCELLED, reservation states CANCELLED and RECONCILIATION_REQUIRED: no modelled call writes them.
- Inbox and timer leases: smaller copies of the outbox lease.
- Effects at the provider: a worker that lost its lease may still reach the provider late, so dispatch claims are over the durable log and the calls made.
- ProviderRuntime.ProviderWorkerRuntime.RunDeliveryBatch: does not model other workers between its calls; interleavings are covered by the program counters of ProviderWorkers.
- ProviderRuntime.ProviderWorkerRuntime.RunReconciliationBatch: does not model other workers between its calls, for the same reason.
- ProviderRuntime.CheckedExactly: covers the store's own refusals; a lost database connection, after which a second completion can still succeed, is not modelled.
- RetryPolicy.JitterBounds: computes the jitter factor as an exact fraction of the digest byte, because rounding of the double product is not the point.
- RetryPolicy.BackoffNeverFalls: takes coefficient and delays as whole numbers, as every policy in the program has them.
- CatalogProjection.CompletionIsSound: computes the coverage ratio over the reals, because rounding of the double quotient is not the point.
- ContinuationTokens.TokenRoundTrip: takes times as numbers with a faithful spelling, and a key repeated inside a token by its first value.
- JsonValues.NormalizeIsIdempotent: covers finite trees; the check for circular references on object graphs is not modelled.
- NumberText.NumberRoundTrip: takes the shortest round-tripping digits of a double as given; how they are found is the platform's business.
- CausalNavigation.SortIsStable: takes the locale's collation as a number per node, which may tie.
- EmailScanner.ContainsEmailOtherThan: lower-cases ASCII letters only, which is all that an address can contain; an allowed address with other letters is outside the model.
- CatalogPages.CollectPages: takes the cursor as the id it encodes and the filters as a set of matching ids.
- Gross margin percentages: the comparison with the approval threshold is an input of quote creation.
- Decisions about proposals, lead and commercial-case commands: the same version check and kernel with less arithmetic.
- Catalog cursors, coverage observations and reconciliation items: written as evidence and read by no modelled branch.
- Stage 5 admission checks, tool manifests, RFQ previews and readiness flags: guards before a reservation, with no state of their own.
- Static registries, routes, pages, telemetry and journey certifiers: plumbing and presentation.
