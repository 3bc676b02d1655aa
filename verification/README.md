# Proofs about repo-com

repo-com sends chat messages on behalf of a repository. A draft is normalised, its named mentions are expanded, a footer
with a nonce is appended, an operator approves the exact result, and a coordinator claims one delivery attempt before any
request leaves the machine. This project models the parts of the repository where that can go wrong, and proves what they
promise. `dafny verify dfyconfig.toml` checks all of it.

| files | what they model |
|---|---|
| `Delivery`, `DeliverySafety`, `DeliveryRuns`, `DeliveryCoordinator` | the claim and transition transactions over attempt rows and the audit log; every run of any number of coordinators; the coordinator object |
| `DeliveryProgress`, `DeliveryOutcomes`, `DeliveryReplay`, `DeliveryExamples` | when exactly a claim is granted and an outcome recorded, and how it is read back; what repeating one does after any further steps; two runs that end refused |
| `DeliveryRules` | the rules of the delivery tables in any store: ids, nonces, states, loading, inserting |
| `AttemptLog`, `DeliveryLog` | the metadata of claims and outcomes as named fields, redacted and read back, for one event and over every run |
| `Retry`, `RetryDriver`, `RetryOutcomes`, `SendService` | the retry policy and its runner; claims, requests and recorded decisions together; what is recorded against what happened; the command line's send |
| `Reconcile`, `ReconcileAnswers` | recovery of an unknown delivery from pages of messages; its answers over any calls |
| `Approval`, `ApprovalSafety`, `ApprovalRules`, `ApprovalService`, `ApprovalLog`, `ApprovalLogRules` | approvals and secret overrides over every run and in any store; the two readers of one approval event; their records as named fields in the audit log |
| `PolicyAuthority`, `AuthorizedDelivery` | the activation a claim on a policy relies on; approvals, activations and deliveries in one run |
| `DeliveryDeletion`, `DeletionExamples`, `RetentionTime`, `RetentionSweep`, `RetentionRules` | rows and log rows deleted between the steps of the protocol; the timestamps and cutoffs of retention and purge |
| `Normalize`, `Mentions`, `MentionSafety`, `Render`, `Request`, `RequestSafety`, `RenderExamples` | the text pipeline up to the create-message request |
| `MentionRules`, `RenderRules` | which texts resolve, which revisions render and for which messages a request is built, over positions and fields |
| `Gregorian`, `Timestamps` | days and dates; the timestamp parsers, the printer and the orders on timestamps |
| `Redaction`, `RedactionRules`, `Exposure`, `MetadataFields`, `MetadataNames` | redaction of audit metadata, what it leaves visible, objects with named fields under it, audit events written and read back |
| `Paging`, `PagingRules` | queries page by page; which filters are refused and which rows selected |
| `Permissions`, `TokenScan`, `TokenRules` | channel permissions; the searches for text shaped like a token |
| `Text`, `Sequences`, `Wrappers` | strings, sequences, options and results |

A transaction is one atomic step: it either commits as a whole or changes nothing. A run is any sequence of steps of any
number of processes, so a process that stops between two transactions is a run with fewer steps of its own. What the
program reads from outside (clocks, answers of the network, policy decisions, scanner results, the database's number for a
timestamp) is a parameter, universally quantified in every theorem. Hashes are injective functions. Texts are in Unicode
NFC where the program normalises them first, and otherwise sequences of bytes where it works on bytes.

Places where the code does not do what one might expect are kept as they are, and described exactly:

- The completion guard compares timestamps as strings. `Timestamps.CompletionGuard` says for which pairs of texts that is
  wrong, and `Timestamps.LaterTextCanSortFirst` gives a pair in every second. The texts the program prints itself are not
  among them (`Timestamps.PrintedOrder`).
- A retry does not always get a fresh id. `DeliveryProgress.GrantedExactlyWhenDue` says when a claim is granted, a taken
  id being one reason why not; `DeliveryExamples.UnchangedIdIsRefused` is a run of two attempts under one request id whose
  third is refused.
- Replaying a transition is idempotent exactly if redaction leaves its error code and message id alone
  (`DeliveryReplay.ReplayAfterTransition`); it does not leave `token:1` alone (`DeliveryExamples.RecordedCodeIsRefused`).
- A claim under a policy is read back exactly if there is an activation under the id that redaction leaves
  (`AttemptLog.ClaimComesBack`). An activation named `token:1` is a valid one, and its claims cannot be loaded
  (`AttemptLog.PolicyClaimCanBeLost`).
- A preview that was approved and then replaced by another preview of its revision can never be approved again
  (`ApprovalSafety.ReplacedIsGone`).
- Deleting attempts can break what the protocol promises. A closed revision stays closed exactly as long as the row of its
  last attempt is kept, or the log row of the claim that would come next (`DeliveryDeletion.SealedExactlyIf`,
  `DeliveryDeletion.ClosedDespiteDeletions`); `DeletionExamples.AcceptedIsSentAgain` is an accepted message that gets a
  second permit once both are deleted.
- The retention sweep can remove the outcome of an attempt and keep the attempt, which then no longer loads as it did:
  exactly at a cutoff between a completion and a later start in one second (`RetentionSweep.KeptAttemptsLoad`,
  `RetentionTime.SweepCanSplit`). The purge, which compares whole seconds, cannot (`RetentionTime.PurgeNeverSplits`).
- Not every timestamp that a claim accepts can be read by retention and purge: `RetentionTime.ReadsInstants` says which,
  and one that cannot stops every job on its repository (`RetentionSweep.UnreadableStopsEveryJob`). They
  also read more: lower-case letters and zones, with any character between a zone's hours and minutes
  (`RetentionRules.ReadExactlyIf`).
- One redaction pass is not idempotent: `Redaction.OnePassIsEnough` gives the condition for a string,
  `Redaction.OnePassIsNotAlwaysEnough` a string that fails it, `Redaction.ThirdPassIsSecond` what does hold.
- The renderer accepts two aliases of one target and the request builder refuses them, whatever the text mentions
  (`RequestSafety.RenderedIsAccepted`, and `RenderExamples.RenderedAndRefused` for a message). The permit has been
  committed by then, so that such a revision stays claimed and is never sent (`SendService.RefusedIsNeverSent`).
- Stripping the footer gives the expanded, normalised text, which is the stored body only under the condition of
  `RequestSafety.RawBodyComesBack`. `RenderExamples.TrailingSpaceIsLost` and `RenderExamples.MentionIsExpanded` are bodies
  that fail it.

Where the repository's comments and the timestamp grammar of RFC 3339, sections 5.6 and 5.7, differ, the code is followed:
year 0000, second 60, lower-case letters and numeric offsets are refused (`Timestamps.AcceptedIsGrammar`).

## Model

| member | source | states |
|---|---|---|
| DeliverySafety.ClaimEffect | crates/repo-com-delivery/src/claim.rs:281-443 | a claim transaction keeps the invariant of the store, grants a permit only where a next attempt may start and then appends exactly that attempt, and otherwise leaves the store as it is |
| DeliverySafety.TransitionEffect | crates/repo-com-delivery/src/transition.rs:186-297 | a transition transaction keeps the invariant, never finds row and log in disagreement, and either changes nothing or gives exactly one attempt, the last of its revision and so far only claimed, the outcome asked for |
| DeliverySafety.Loads | crates/repo-com-delivery/src/claim.rs:1191-1295 | every stored attempt loads, with the state of its newest log event and the content and authority of its claim event, given what the log has of them |
| DeliverySafety.NewestIsLast | crates/repo-com-delivery/src/claim.rs:1153-1173 | the row picked as the latest of a revision is the last of its attempts in number and in time, and is read back with that number and state |
| DeliverySafety.SettleKeeps | crates/repo-com-delivery/src/transition.rs:248-297 | the guarded update together with its log event keeps numbering, agreement of rows and log, unique ids and unique message ids |
| DeliverySafety.InsertKeeps | crates/repo-com-delivery/src/claim.rs:357-443 | inserting a claim row with its event keeps the same invariant |
| DeliveryRuns.Reachable | crates/repo-com-delivery/src/claim.rs:236-355 | in every run of claims, retries, transitions and foreign log writes the invariant holds and the permits issued are one per attempt row |
| DeliveryRuns.DuplicateSafety | crates/repo-com-delivery/src/claim.rs:281-355 | over every interleaving a revision's attempts are numbered 1..n without gaps, all but the last wait for a retry, all carry one content and authority, and no attempt id gets two permits |
| DeliveryRuns.PermitOnlyWhenDue | crates/repo-com-delivery/src/claim.rs:281-355 | a claim issues a permit only for a first attempt or after a predecessor in `retry_wait`; any other claim leaves store and permits unchanged |
| DeliveryProgress.GrantedExactlyWhenDue | crates/repo-com-delivery/src/claim.rs:281-443 | in every reachable store a claim is granted if and only if it is due: not blocked, revision in range, authority valid and that of the waiting predecessor, same content, id, nonce and event id free and well formed; it then appends exactly the next attempt, its event and its permit, and otherwise changes nothing |
| DeliveryProgress.UsedIdGetsNoPermit | crates/repo-com-delivery/src/claim.rs:1462-1472 | a retry whose id, requested or derived, is that of an earlier attempt changes nothing and issues no permit |
| DeliveryProgress.RecordedExactlyWhen | crates/repo-com-delivery/src/transition.rs:186-297 | in every reachable store a transition writes row and event if and only if the attempt is only claimed so far, the outcome is well formed and not before the claim, no other accepted attempt of the repository has exactly its message id, and the log has room; otherwise it changes nothing |
| DeliveryProgress.ValidExactlyIf | crates/repo-com-delivery/src/transition.rs:299-347 | an outcome is well formed if and only if ids, actor and time are in order, and it is an acceptance with a message id and no error code, or a failure, wait or unknown result with an error code and no message id |
| DeliveryOutcomes.ConflictExactlyIf | crates/repo-com-delivery/src/transition.rs:223-247 | in every reachable store an acceptance is refused over its message if and only if nothing else is wrong with attempt and request and another accepted attempt of the repository has exactly this message id |
| DeliveryOutcomes.OpenIsRecorded | crates/repo-com-delivery/src/transition.rs:248-297 | an open outcome, with no such conflict and room in the log, is recorded in its row and no other, and is read back with state, times, code and message id as asked for, up to redaction |
| DeliveryRules.StatesLead | crates/repo-com-delivery/src/model.rs:101-114 | which state can follow which |
| DeliveryRules.NamesAre | crates/repo-com-delivery/src/claim.rs:1474-1484 | identifiers and error codes, character by character |
| Text.BytesAre | crates/repo-com-delivery/src/claim.rs:1474-1484 | the length that is compared counts the bytes of the text in UTF-8 |
| DeliveryRules.NoncesAre | crates/repo-com-delivery/src/claim.rs:1450-1464 | a nonce is accepted if and only if it is the content nonce, or that and `-attempt-` and a number from 1 on that fits 64 bits |
| DeliveryRules.RetryIdIs | crates/repo-com-delivery/src/claim.rs:1466-1472 | a retry keeps the id it asks for, unless it asks for none or the previous one: then it gets a fresh one from that and its number |
| DeliveryRules.EffectiveIdIs | crates/repo-com-delivery/src/claim.rs:372-376 | a claim without an id is called after its draft and revision |
| DeliveryRules.RevalidatesExactlyIf | crates/repo-com-delivery/src/claim.rs:480-560 | a claim passes its own checks if and only if it stays in its scope, nonce, actor and time are in order, and the comparison with the database succeeds, whose binding it then has |
| DeliveryRules.LoadsExactlyIf | crates/repo-com-delivery/src/claim.rs:1191-1295 | in any store whatever an attempt loads if and only if its newest claim and its newest log row agree with its row; otherwise it is corrupt |
| DeliveryRules.InsertsExactlyIf | crates/repo-com-delivery/src/claim.rs:357-443 | in any store whatever row and log row of a claim are written if and only if id and nonce are in order and unused, the numbers fit, no attempt of the revision is in the way, and the log takes the event |
| DeliveryExamples.UnchangedIdIsRefused | crates/repo-com-delivery/src/claim.rs:1462-1472 | on the redacted log, claim, wait, retry and wait under one request id issue two permits, and the next retry under it none although its predecessor waits |
| DeliveryRuns.ClosedForever | crates/repo-com-delivery/src/claim.rs:281-355 | once the last attempt is accepted, failed or unknown, no later call of anyone starts an attempt, issues a permit or changes an outcome of that revision |
| DeliveryDeletion.SealedExactlyIf | crates/repo-com-retention/src/sweep.rs:1536-1545 | after a deletion a closed revision is still sealed if and only if the row of its last attempt is kept, or the log row of the claim whose number comes after the rows that are |
| DeliveryDeletion.SealedForever | crates/repo-com-delivery/src/claim.rs:281-443 | from any store whatever, a sealed revision gets no permit through claims, outcomes and deletions that leave it sealed |
| DeliveryDeletion.ClosedDespiteDeletions | crates/repo-com-delivery/src/claim.rs:281-443 | a revision closed in a reachable world gets no further permit as long as each deletion leaves it sealed |
| DeliveryDeletion.GrantedAnywhere | crates/repo-com-delivery/src/claim.rs:281-443 | in any store of positive attempt numbers, however rows and log rows were deleted, a claim gets a permit if and only if it is due: the newest row loads as waiting with this content and authority, or there is no row, and id, nonce and event id are free |
| DeliveryDeletion.LoadsAsBefore | crates/repo-com-delivery/src/claim.rs:1191-1295 | after a deletion an attempt loads as before if and only if the log rows of its claim and outcome are kept; it is corrupt without the claim, and without the outcome alone, unless it waited: then it looks newly claimed |
| DeletionExamples.AcceptedIsSentAgain | crates/repo-com-purge/src/execute.rs:932-957 | on the redacted log, an accepted message whose attempt and log rows are deleted gets a second permit under the same attempt id |
| RetentionTime.DaysFromCivilCounts | crates/repo-com-retention/src/policy.rs:609-621 | the arithmetic from date to day counts the days of the calendar, for every valid date |
| RetentionTime.ReadNanos | crates/repo-com-retention/src/policy.rs:515-584 | the parser's loops over the digits of the fraction and over the zeros appended to them |
| RetentionTime.ReadsInstants | crates/repo-com-retention/src/policy.rs:515-584 | of the timestamps that claims accept, exactly those from 1970 on with at most nine digits after the point are read, and as the instants they name |
| RetentionRules.ReadExactlyIf | crates/repo-com-retention/src/policy.rs:515-584 | of all texts, exactly the stated form is read: year, date and time in range, up to nine digits of a fraction, and `Z` or a sign, hours and minutes with any one character between them; and as the instant that spells, to the nanosecond |
| RetentionTime.SplitExactlyIf | crates/repo-com-retention/src/sweep.rs:664-673 | a sweep keeps an attempt's start and removes its completion if and only if the completion is at the cutoff, the start later in the same second, and the start's written fraction extends the completion's |
| RetentionTime.PurgeNeverSplits | crates/repo-com-purge/src/plan.rs:1096-1099 | comparing whole seconds, a purge that keeps the start keeps the completion |
| RetentionTime.SweepCanSplit | crates/repo-com-retention/src/sweep.rs:664-673 | in every second from 1970 on there is a start and completion that the sweep tells apart |
| RetentionSweep.KeptAttemptsLoad | crates/repo-com-retention/src/sweep.rs:1355-1380 | in every reachable store, an attempt that a sweep or purge keeps loads as before if and only if the job fails or does not split it |
| RetentionRules.CleanedExactly | crates/repo-com-retention/src/sweep.rs:654-673 | where times are those that claims accept, a job that fails or meets a time it cannot read changes nothing, and any other keeps exactly the rows and the log rows of attempts that are of another repository, or after the cutoff, to the instant for the sweep and to the second for the purge, and for rows whose draft stays |
| RetentionSweep.AcceptedAndUnreadable | crates/repo-com-retention/src/policy.rs:546-550 | timestamps with ten or more digits after the point are accepted by claims and cannot be read |
| RetentionSweep.UnreadableStopsEveryJob | crates/repo-com-retention/src/sweep.rs:654-658 | one attempt that started at such a time stops every sweep and purge that does not remove its draft |
| DeliveryRuns.RowAndLogAgree | crates/repo-com-delivery/src/claim.rs:1191-1295 | in every reachable store the log of an attempt is one claim and at most one outcome, loading from what the log has never fails, and the row shows the logical state except that `retry_wait` shows as `claimed` |
| DeliveryLog.EveryAttemptReadsBack | crates/repo-com-delivery/src/claim.rs:1191-1295 | in every store reached by claims with real hashes and found activations, the redacted objects of each attempt's claim and newest event read back as exactly the metadata it is loaded with, so that loading does not fail there either |
| AttemptLog.AttemptComesBack | crates/repo-com-delivery/src/model.rs:653-710 | the object of twenty-two named fields comes back through its redaction as it was, but for error code and message id, which are redacted, and for a policy authority, which needs an activation under the redacted id |
| AttemptLog.ClaimComesBack | crates/repo-com-delivery/src/claim.rs:1363-1408 | a claim's metadata is read back unchanged if and only if its authority is an approval or its activation is found under the redacted id |
| AttemptLog.AuthorityExactlyIf | crates/repo-com-delivery/src/claim.rs:1363-1408 | an authority is read if and only if all its fields are there under its kind, an activation being found |
| AttemptLog.OutcomeComesBack | crates/repo-com-delivery/src/transition.rs:248-297 | what is read back of an outcome's object is the metadata of the outcome event that the transactions are modelled with |
| AttemptLog.PolicyClaimCanBeLost | crates/repo-com-delivery/src/claim.rs:1363-1408 | an activation id that is valid, and whose claims cannot be read back |
| DeliveryRuns.AcceptedMessageIsUnique | crates/repo-com-delivery/src/transition.rs:223-247 | an accepted message id belongs to one attempt per repository |
| DeliveryRuns.LateOutcomeRefused | crates/repo-com-delivery/src/transition.rs:215-221 | an outcome for an attempt that waits for a retry is refused although its row still says `claimed` |
| DeliveryReplay.ReplayAfterTransition | crates/repo-com-delivery/src/transition.rs:207-214 | repeating a transition that was recorded, after any further steps of anyone, writes nothing; it returns the same attempt if and only if redaction leaves error code and message id unchanged, and is refused as stale otherwise |
| DeliveryReplay.FinishedStays | crates/repo-com-delivery/src/transition.rs:186-297 | once an attempt has an outcome, no step of anyone changes its row or its events |
| DeliveryExamples.RecordedCodeIsRefused | crates/repo-com-delivery/src/transition.rs:207-214 | on the redacted log, a failure with the code `token:1` is recorded, and repeating it is refused after any further steps |
| DeliveryRuns.OnePermitWithoutRetry | crates/repo-com-cli/src/app.rs:1613-1642 | the command line program never claims a retry, so however many of its processes run and stop, a revision gets at most one permit |
| DeliveryRuns.PermitsForRows | crates/repo-com-delivery/src/model.rs:565-580 | the permits of a revision are those of its attempts, each once and in order |
| DeliveryCoordinator.Coordinator.Claim | crates/repo-com-delivery/src/claim.rs:236-355 | the coordinator's claim, step by step with its early returns, changes store and answers exactly as the transaction the theorems are about, and meets its specification |
| DeliveryCoordinator.Coordinator.InsertNewClaim | crates/repo-com-delivery/src/claim.rs:357-443 | writes row and event of a claim together, or reports the error and changes neither |
| DeliveryCoordinator.Coordinator.RecordTransition | crates/repo-com-delivery/src/transition.rs:18-53 | the coordinator's transition with its checks in order, and its specification |
| DeliveryCoordinator.Coordinator.Apply | crates/repo-com-delivery/src/transition.rs:248-297 | updates the row, appends the event and reloads the attempt, and undoes all of it when a later step fails |
| DeliveryCoordinator.Coordinator.ReadRevisionOutcome | crates/repo-com-delivery/src/transition.rs:150-183 | returns the last attempt of a revision as it stands, nothing exactly when there is none, and an error exactly for a revision number out of range |
| Retry.WaitIffSafe | crates/repo-com-delivery-retry/src/policy.rs:505-568 | a decision waits exactly when an attempt is left and the outcome proves the message did not arrive and says when to try again; the wait is within its bound and leads to the next number |
| Retry.LimitsExactlyIf | crates/repo-com-delivery-retry/src/policy.rs:428-452 | a policy may allow one to three requests, jitter between bounds in order, and half a minute at most where Discord says when |
| Retry.WaitsAsAsked | crates/repo-com-delivery-retry/src/policy.rs:476-568 | the wait after a failed connection is the one within the bounds nearest to the given jitter, or the shortest without any; after a rate limit it is what Discord asked for, cut at the limit |
| Retry.StopsExactlyIf | crates/repo-com-delivery-retry/src/policy.rs:505-568 | for which numbers and outcomes it stops, why, and under which code |
| Retry.TraceIsSafe | crates/repo-com-delivery-retry/src/policy.rs:859-915 | in a run only the last request may have reached Discord, every wait keeps its bound, and the numbers stay within the limit |
| Retry.RetryRunner.Run | crates/repo-com-delivery-retry/src/policy.rs:859-915 | the runner sends consecutive numbers, waits as decided, and ends with a final decision, a failed clock or an invalid start, never with its attempt-limit error |
| Retry.RetryRunner.Round | crates/repo-com-delivery-retry/src/policy.rs:872-899 | one round makes one request, decides by the policy and waits exactly if the decision says so |
| Retry.RetryRunner.RunRecordedAttempt | crates/repo-com-delivery-retry/src/policy.rs:942-968 | numbering starts at the claimed attempt, or after one that waits, and from there the run promises what `Run` does; attempts in other states, or with numbers beyond eight bits, make no request and say so |
| RetryDriver.TotalRequestsBounded | crates/repo-com-delivery-retry/src/policy.rs:859-1031 | over all attempts of a revision together, however claims, runs and recorded decisions interleave, requests are numbered 1, 2, 3 within the limit, only the last may have arrived, and every wait kept its bound |
| RetryDriver.ActKeeps | crates/repo-com-delivery-retry/src/policy.rs:924-1031 | each claim, run and recorded decision keeps the fit between attempts and the requests made for them |
| RetryDriver.RecordKeepsDriven | crates/repo-com-delivery-retry/src/policy.rs:974-1031 | recording a decision leaves an attempt waiting only if it had exactly one request |
| RetryOutcomes.DecisionTells | crates/repo-com-delivery-retry/src/policy.rs:974-1031 | the decision on a request is recorded as what happened to it, and not at all exactly if nothing is left to wait for |
| RetryOutcomes.RecordedAsHappened | crates/repo-com-delivery-retry/src/policy.rs:924-1031 | over every interleaving, an attempt is accepted only if Discord took its last request, with that message id; failed only if Discord refused it, with the code; unknown only if it may have arrived; and waiting only if it surely did not |
| RetryOutcomes.RecordingTells | crates/repo-com-delivery-retry/src/policy.rs:974-1031 | conversely, recording gives the attempt the state its last request tells, exactly if that is open for it and there is something to record; otherwise all stays |
| Reconcile.CollectEvidence | crates/repo-com-delivery-retry/src/reconcile.rs:575-663 | the loop's flags and matched ids are those of the page's candidates |
| Reconcile.ClassifyObservation | crates/repo-com-delivery-retry/src/reconcile.rs:575-663 | with these flags the code computes the same decision and progress as the simple specification |
| Reconcile.ClassifySpec | crates/repo-com-delivery-retry/src/reconcile.rs:575-663 | accepted if and only if the page is complete and its only candidate is an exact match; progress grows by one if and only if the page is complete and has no candidate; absence needs both the reads and the time |
| Reconcile.OrderDoesNotMatter | crates/repo-com-delivery-retry/src/reconcile.rs:575-663 | permuting the messages of a page changes neither decision nor progress |
| Reconcile.RecoveryReconciler.Reconcile | crates/repo-com-delivery-retry/src/reconcile.rs:757-798 | the reconciler's fields and answer change exactly as the step function says |
| Reconcile.AlwaysHonest | crates/repo-com-delivery-retry/src/reconcile.rs:757-798 | over any calls, while no decision is final, progress counts exactly the complete reads without a candidate, and no complete read had one |
| Reconcile.AbsenceIsEarned | crates/repo-com-delivery-retry/src/reconcile.rs:757-798 | absence is reported only after at least three complete reads without a candidate, none with one, and 300 seconds |
| Reconcile.AcceptanceIsEarned | crates/repo-com-delivery-retry/src/reconcile.rs:757-798 | acceptance is reported only for a complete page whose only candidate is the exact message, with no earlier complete page holding a candidate |
| Reconcile.FinalStays | crates/repo-com-delivery-retry/src/reconcile.rs:827-834 | a final result never changes and is repeated by every later call |
| ReconcileAnswers.KeptOnceFinal | crates/repo-com-delivery-retry/src/reconcile.rs:827-834 | after any calls an answer is kept if and only if one so far was acceptance, absence or a conflict among the candidates; an open search, a failed and an incomplete read are never kept |
| ReconcileAnswers.AbsentExactlyIf | crates/repo-com-delivery-retry/src/reconcile.rs:757-798 | after calls whose complete reads showed no candidate, a further one without is answered with absence if and only if it makes three of them and 300 seconds, or absence was answered before; otherwise the search is open with the reads counted |
| ReconcileAnswers.AcceptedExactlyIf | crates/repo-com-delivery-retry/src/reconcile.rs:757-798 | while no answer was final, a call is answered with acceptance if and only if the page is complete and the only message of ours on it is unedited and says exactly what was sent, and with the id of that message |
| ReconcileAnswers.RefusedExactlyIf | crates/repo-com-delivery-retry/src/reconcile.rs:131-150 | a call is refused if and only if its target is not a valid one, or not that of the first call about a valid one, or it got a page from before the delivery became unknown |
| Reconcile.FailedReadsAreHarmless | crates/repo-com-delivery-retry/src/reconcile.rs:757-798 | failed and incomplete reads, and a clock that went back, leave what is remembered untouched |
| ApprovalLog.ApprovalSurvives | crates/repo-com-approval/src/service.rs:1345-1367 | every record made of hashes that the audit crate accepts is stored, after all redaction passes over its nineteen named fields, exactly as it was written, and both crates rebuild it from the stored object |
| ApprovalLog.ApprovedIsRegular | crates/repo-com-approval/src/service.rs:588-635 | the records of a confirmation are of this kind, and decoding their stored rows is decoding their events as the transactions do |
| ApprovalLog.OverrideSurvivesLog | crates/repo-com-approval/src/service.rs:1369-1391 | an override made of hashes passes redaction unchanged and is rebuilt from its stored object |
| ApprovalLog.RowDecodersAgree | crates/repo-com-delivery/src/claim.rs:1567-1599 | whatever stored object the approval service decodes, the delivery crate, with one field and most of the checks less, decodes to the same record |
| ApprovalLogRules.RecordReadExactlyIf | crates/repo-com-approval/src/service.rs:1345-1367 | the approval crate reads a record from exactly the objects that hold its nineteen fields with these values, the override's missing or null where there is none |
| ApprovalLogRules.SharedReadExactlyIf | crates/repo-com-delivery/src/claim.rs:1542-1599 | the delivery crate reads it from exactly those that hold eighteen of them, and puts the operator |
| ApprovalLogRules.EveryRowReads | crates/repo-com-approval/src/service.rs:1345-1391 | every stored row stands for an event to each of the three decoders, so that the next three are about all rows |
| ApprovalLogRules.RowIsEvent | crates/repo-com-approval/src/service.rs:1345-1367 | whatever the stored row is, decoding it is decoding the event it stands for, which is what the transactions are modelled with |
| ApprovalLogRules.DeliveryRowIsEvent | crates/repo-com-delivery/src/claim.rs:1567-1599 | the same for the delivery crate |
| ApprovalLogRules.OverrideRowIsEvent | crates/repo-com-approval/src/service.rs:1369-1391 | the same for overrides |
| ApprovalSafety.Reachable | crates/repo-com-approval/src/service.rs:699-857 | in every run of approvals, overrides and foreign events, each approval or override event was written for a confirmation that succeeded, and each approval row is backed by its event |
| ApprovalSafety.RowsHaveEvents | crates/repo-com-approval/src/service.rs:736-805 | each approval row has a matching event that both decoders turn into the record the row was written from |
| ApprovalSafety.ApproveOutcomes | crates/repo-com-approval/src/service.rs:699-805 | confirming a preview either changes nothing and fails, or returns the record that stands without writing, or writes one new record with its event |
| ApprovalSafety.ApprovedStands | crates/repo-com-approval/src/service.rs:699-805 | after a confirmation succeeds, row, event and override together make the returned record the one that stands |
| ApprovalSafety.ReplayReturnsFirst | crates/repo-com-approval/src/service.rs:757-767 | confirming a preview that is approved returns the first record, at any time, and writes nothing |
| ApprovalSafety.ApprovedIsLogged | crates/repo-com-approval/src/service.rs:770-805 | a preview whose confirmation succeeded has its record in the log, which is what the next rows start from |
| ApprovalSafety.ApprovalIsNeverExtended | crates/repo-com-approval/src/service.rs:696-805 | after any run, confirming an approved preview again writes nothing, and succeeds if and only if its record still stands and the request is admitted; it then returns the first record with its first expiry |
| ApprovalSafety.ReplacedIsGone | crates/repo-com-approval/src/service.rs:746-790 | a preview replaced by another preview of its revision can never be approved again, whatever follows |
| ApprovalSafety.StandsWhileSpared | crates/repo-com-approval/src/service.rs:746-790 | a record stands through every run that confirms no other preview of its revision |
| ApprovalSafety.ValidUntilExpiry | crates/repo-com-approval/src/service.rs:861-980 | while a record stands, the check is valid exactly until the record or the draft expires |
| ApprovalSafety.ValidMeansConfirmed | crates/repo-com-approval/src/service.rs:861-980 | a valid check goes back to a confirmation that the operator gave in this run, at a terminal and for the hash of the very same preview, now below the earlier of 900 seconds after it and the draft's expiry, and to an override given in the same way if the scan is blocked |
| ApprovalSafety.HistoryIsGiven | crates/repo-com-approval/src/service.rs:699-857 | in every run each confirmation that succeeded, of an approval or an override, was a command of the run given at a terminal, for the current and unexpired preview, with that preview's own hash |
| ApprovalSafety.UnconfirmedIsRefused | crates/repo-com-approval/src/service.rs:113-121 | without a preview, a terminal or the preview's own hash, approval and override fail, each with its error, and write nothing |
| ApprovalRules.ApprovalReadExactlyIf | crates/repo-com-approval/src/service.rs:1345-1367 | the service reads an approval from exactly those events that it would write for it, whatever object they are about |
| ApprovalRules.DeliveryReadExactlyIf | crates/repo-com-delivery/src/claim.rs:1567-1599 | the delivery crate reads an approval from exactly the events with its event id, its versions and its time |
| ApprovalRules.OverrideFoundExactlyIf | crates/repo-com-approval/src/service.rs:1102-1128 | an override is found if and only if the log holds it under the id of the preview; whatever else is there is a conflict |
| ApprovalRules.ApprovesExactlyIf | crates/repo-com-approval/src/service.rs:699-805 | in any store, a confirmation succeeds if and only if it was given at a terminal for the hash of a current preview, the override it needs is in the log, the log takes its event, and this preview stands approved, whose record it returns, or there is place for a new one, which it writes |
| ApprovalRules.OverridesExactlyIf | crates/repo-com-approval/src/service.rs:809-857 | in any store, an override succeeds if and only if it was confirmed in this way for a blocked preview and the log holds one for the same preview and reason, which it returns, or nothing under its id, where it writes one |
| ApprovalRules.ValidExactlyIf | crates/repo-com-approval/src/service.rs:861-980 | in any store, a preview is found approved by a record if and only if it is unexpired, row and log tell of that record fact by fact, with the override it needs, and the record lasts as long as it should and has not expired |
| ApprovalRules.ReachableIsKeyed | crates/repo-com-approval/src/service.rs:736-805 | in every run rows and log are keyed by what they hold, which the next one starts from |
| ApprovalRules.HoldsExactlyIf | crates/repo-com-delivery/src/claim.rs:817-1000 | a claim accepts an approval by id, hash and expiry if and only if row and log tell of such a record of the preview, still within its time, with an override exactly where one is needed |
| ApprovalSafety.CratesAgree | crates/repo-com-delivery/src/claim.rs:817-1000 | in every reachable store the claim's own validation of an approval given by id, hash and expiry passes if and only if the approval service's check is valid with that approval |
| PolicyAuthority.EligibleExactlyIf | crates/repo-com-policy/src/evaluate.rs:321-391 | a policy is eligible if and only if exactly one stored activation of its tuple is active, coherent and bound to the current hashes, whatever stale or deactivated ones there are besides |
| PolicyAuthority.DecidesExactlyIf | crates/repo-com-policy/src/evaluate.rs:321-401 | each answer from the rows of the tuple: active for one current row, stale for one active row where none is current, deactivated for one row where none is active, ambiguous for several, and none, with or without a configuration |
| PolicyAuthority.ReasonExactlyIf | crates/repo-com-policy/src/evaluate.rs:416-457 | why an activation does not bind: its row contradicts itself or holds no hashes, or one or both of the hashes have changed |
| PolicyAuthority.ValidExactlyIf | crates/repo-com-delivery/src/claim.rs:1002-1033 | the claim's comparison passes if and only if there is such an activation and the claim names it, with the current hashes and the hash of its snapshot |
| AuthorizedDelivery.PermitIsBacked | crates/repo-com-delivery/src/claim.rs:817-1033 | in every interleaving of approvals, overrides, activations, claims, retries and outcomes, each permit issued on a human approval goes back to the operator's earlier confirmation of that very preview, given at a terminal for its hash and still within its time, and to an override given so if the scan is blocked; each permit issued on a policy had an unblocked scan and a sole, current, unchanged activation of the id it names |
| ApprovalService.Service.ApprovePreview | crates/repo-com-approval/src/service.rs:699-805 | the service's approval with its checks in order changes store and answers exactly as the transaction of the theorems |
| ApprovalService.Service.Record | crates/repo-com-approval/src/service.rs:770-805 | writes row and event together or changes neither |
| ApprovalService.Service.OverrideFinding | crates/repo-com-approval/src/service.rs:809-857 | records an override, or returns the earlier one for the same preview and reason, or fails without writing |
| ApprovalService.Service.CheckApproval | crates/repo-com-approval/src/service.rs:861-980 | the check with its early returns, changing nothing |
| Normalize.Normalize | crates/repo-com-draft-content/src/normalize.rs:62-96 | the loops compute the normalised text, or report empty text |
| Normalize.WithLineFeeds | crates/repo-com-draft-content/src/normalize.rs:64-80 | the loop that looks one character ahead turns each line end, a carriage return and line feed being one, into a line feed |
| Normalize.NormalizedIsNormal | crates/repo-com-draft-content/src/normalize.rs:62-96 | the result has only line feeds as line ends, no space at the end of a line and no line feed at its end; text is unchanged exactly when it is like that already |
| Normalize.Idempotent | crates/repo-com-draft-content/src/normalize.rs:62-96 | a second normalisation changes nothing |
| Normalize.NormalizedKeepsVisible | crates/repo-com-draft-content/src/normalize.rs:52-96 | every character that is not white space is kept, in order, and text is refused exactly when it has none |
| Normalize.CharactersAre | crates/repo-com-draft-content/src/normalize.rs:64-123 | which characters are white space and which end a line, by code point |
| Mentions.ValidateAllowlist | crates/repo-com-draft-content/src/mentions.rs:332-363 | the loop over the allowlist with its errors in order |
| Mentions.AllowlistIsTheEntries | crates/repo-com-draft-content/src/mentions.rs:332-363 | the allowlist is accepted exactly when every entry is valid, none is the bot and no alias is repeated, and then maps each alias to its target |
| Mentions.NextStep | crates/repo-com-draft-content/src/mentions.rs:234-313 | one turn of the scanner, with its checks in order and the loop over the alias |
| Mentions.ScanText | crates/repo-com-draft-content/src/mentions.rs:227-329 | the scanner's loop produces the text, the occurrences and the ordered allowed list of the pieces it has dealt with |
| Mentions.ResolveWithAllowlist | crates/repo-com-draft-content/src/mentions.rs:221-330 | allowlist and scanner together |
| MentionRules.ResolvesExactlyIf | crates/repo-com-draft-content/src/mentions.rs:221-330 | a text resolves if and only if every entry is fine, no alias is listed twice, and no position of the text, also where the scanner does not stop, holds a forbidden form or a named mention that stands for no alias |
| MentionRules.ExpansionsAreNamed | crates/repo-com-draft-content/src/mentions.rs:278-313 | each expansion is of the alias that its run stands for, dots at its end apart, and of the target listed for it |
| MentionSafety.Resolved | crates/repo-com-draft-content/src/mentions.rs:221-330 | on success, putting alias for expansion back gives the input; expansions stand exactly where a named mention starts and come from the allowlist; `<@` occurs in the output exactly where an expansion starts; and the input holds no `<@`, `<#`, `{{`, `role:` or `user:` anywhere, skipped spans included |
| MentionSafety.SourceOrder | crates/repo-com-draft-content/src/mentions.rs:221-330 | occurrences stand in the output in the order of the source |
| MentionSafety.AliasRunIsClean | crates/repo-com-draft-content/src/mentions.rs:278-296 | no forbidden form can start inside an alias that the scanner skips |
| MentionSafety.AllowedIsFirstOfEach | crates/repo-com-draft-content/src/mentions.rs:316-323 | the allowed list is strictly ordered by target and holds exactly the first occurrence of each target |
| MentionSafety.MentionedIsAllowed | crates/repo-com-draft-content/src/mentions.rs:221-330 | the targets a reader finds mentioned in the output are exactly those of the allowed list |
| MentionSafety.MentionsAreUnambiguous | crates/repo-com-draft-content/src/mentions.rs:383-388 | two rendered mentions that start at one place are of one target |
| RequestSafety.PrefixOccursOnce | crates/repo-com-discord-message/src/request.rs:250-254 | after a body without the marker, the footer's prefix occurs exactly once, even across the seam |
| RequestSafety.RenderedParts | crates/repo-com-draft-content/src/render.rs:397-445 | the exact text is the resolved body and the footer, and expanding mentions brings no nonce marker into a body that had none |
| RenderRules.RendersExactlyIf | crates/repo-com-draft-content/src/render.rs:397-445 | a revision renders if and only if it is in order and unexpired, its body has something visible, and the normalised body holds no footer, resolves, and fits with its footer into 2,000 characters |
| RenderRules.BuildsExactlyIf | crates/repo-com-discord-message/src/request.rs:107-127 | of any message whatever, a request is built if and only if the destination is well named, the text is sealed by the one footer of its nonce, and the targets are valid, each once and the destination's; it then carries text, nonce and reply and allows exactly these targets, sorted |
| RequestSafety.RenderedIsAccepted | crates/repo-com-discord-message/src/request.rs:107-127 | every rendered message is accepted by the request builder if and only if the destination's targets are distinct; otherwise it is refused as a duplicate |
| RenderExamples.RenderedAndRefused | crates/repo-com-discord-message/src/request.rs:258-307 | a message to a destination with two aliases of one user renders, and is refused |
| SendService.RefusedIsNeverSent | crates/repo-com-cli/src/app.rs:1613-1650 | whatever processes do, a send whose request is refused keeps its attempt claimed, makes no request, and its revision never gets another permit |
| SendService.RefusedExactlyIfRepeated | crates/repo-com-cli/src/app.rs:1641-1647 | building the request of a rendered message under its permit fails exactly if targets of the destination repeat |
| SendService.SentIsRecorded | crates/repo-com-cli/src/app.rs:1641-1690 | once its request is made, a send records its outcome for its own attempt exactly if that attempt is open for it, and nothing before or for a refused message |
| RequestSafety.RequestAllowsWhatItMentions | crates/repo-com-discord-message/src/request.rs:258-307 | roles and users of the request are strictly sorted, and are exactly the ids mentioned in the content |
| RequestSafety.CountsTargets | crates/repo-com-discord-message/src/request.rs:262-270 | comparing the sizes of set and list finds exactly the repeated targets |
| RequestSafety.RawBodyComesBack | crates/repo-com-cli/src/app.rs:2089-2094 | stripping the footer gives the stored body back if and only if that body is normal and nothing in it was expanded |
| RenderRules.StrippedExactlyIf | crates/repo-com-cli/src/app.rs:2089-2094 | stripping takes off exactly the footer of the hash, if the text ends with it |
| RenderExamples.TrailingSpaceIsLost | crates/repo-com-cli/src/app.rs:2089-2094 | a body with a space at its end renders and comes back without it |
| RenderExamples.MentionIsExpanded | crates/repo-com-cli/src/app.rs:2089-2094 | a body with a mention renders and comes back expanded |
| Request.ValidateMentions | crates/repo-com-discord-message/src/request.rs:258-307 | the two loops over targets and occurrences with their errors in order |
| Gregorian.Epoch | crates/repo-com-cli/src/app.rs:2132-2152 | day 0 is 1970-01-01 |
| Gregorian.CivilIsCalendar | crates/repo-com-cli/src/app.rs:2132-2152 | for every integer day, negative ones included, the conversion gives a date of the calendar, and the next day gives the next date |
| Gregorian.DayNumberInverts | crates/repo-com-cli/src/app.rs:2132-2152 | counting the days of the date gives the day back |
| Gregorian.DateOrder | crates/repo-com-audit-query/src/filter.rs:368-379 | earlier dates of the calendar of `days_in_month` and `is_leap_year` are exactly those of smaller day number |
| Timestamps.AcceptedIsGrammar | crates/repo-com-audit/src/event.rs:376-420 | the check of the audit crate and the parser of the query crate accept the same texts, exactly those of the grammar, and the parser reads back the fields that were spelled |
| Timestamps.KeyOrderIsTimeOrder | crates/repo-com-audit-query/src/filter.rs:287-360 | comparing keys is comparing instants as exact numbers, and keys are equal exactly for equal instants, however the fraction was padded |
| Timestamps.FractionOrder | crates/repo-com-audit-query/src/filter.rs:341-349 | fractions without trailing zeros compare as strings the way they compare as numbers |
| Timestamps.StringOrderIsTimeOrder | crates/repo-com-delivery/src/transition.rs:203-207 | comparing accepted texts as strings is comparing instants, in both directions, if and only if it is not the case that within one second one written fraction goes on where the other stops |
| Timestamps.CompletionGuard | crates/repo-com-delivery/src/transition.rs:203-207 | the exact pairs for which the guard refuses a completion that is not earlier, and for which it lets an earlier one pass |
| Timestamps.LaterTextCanSortFirst | crates/repo-com-delivery/src/transition.rs:203-207 | in every second, a completion half a second after a start sorts before it |
| Timestamps.PrintedIsAccepted | crates/repo-com-cli/src/app.rs:2120-2130 | the printed text is accepted if and only if the second is before year 10000, and then names that very second |
| Timestamps.PrintedOrder | crates/repo-com-cli/src/app.rs:2120-2130 | printed texts sort as strings the way their seconds do |
| Redaction.ThirdPassIsSecond | crates/repo-com-audit/src/redact.rs:248-272 | on every JSON value, key collisions included, the third pass changes nothing that the second left |
| RedactionRules.PassRedacts | crates/repo-com-audit/src/redact.rs:200-272 | one pass as a relation: numbers, truth values and gaps stay, lists keep their length and objects their names in order, the last of several winning; secret and content keys hold the replacement; a string stays, control characters apart, if and only if it is under an open key and shows nothing sensitive |
| Redaction.TwoPassesAreHarmless | crates/repo-com-audit/src/redact.rs:248-272 | after two passes no string or key is sensitive or holds a control character, secret and content keys hold the replacement, and so does every other key that is not a safe one where it holds a string |
| Exposure.SensitiveExactlyIf | crates/repo-com-audit/src/redact.rs:289-329 | a text is sensitive if and only if, in lower case, a marked phrase stands somewhere in it, or a term of the two lists with an assignment after it, or a token at a boundary, or the whole of it is three dotted parts of at least eight token characters each, the first starting with `eyj`; all over positions |
| Exposure.ClassesAre | crates/repo-com-audit/src/redact.rs:225-246 | which keys are secret, which open and which content |
| Exposure.NothingIsExposed | crates/repo-com-audit/src/event.rs:174-331 | in the stored row of any event, whatever its metadata, no string and no key shows any of these, and strings other than the replacement stand only under open keys |
| Redaction.LookupRedacted | crates/repo-com-audit/src/redact.rs:248-272 | a redacted object has a field under each key that some field goes under and no other; of fields that go under one key the last stays |
| Redaction.TestsAreQuiet | crates/repo-com-audit/src/redact.rs:289-329 | the replacements themselves are not sensitive |
| Redaction.OnePassIsEnough | crates/repo-com-audit/src/redact.rs:200-215 | one pass over a string is idempotent if and only if the string was sensitive or stays harmless once its control characters are spaces |
| Redaction.OnePassIsNotAlwaysEnough | crates/repo-com-audit/src/redact.rs:200-215 | a string for which one pass is not |
| Redaction.HasAssignmentAfter | crates/repo-com-audit/src/redact.rs:331-349 | the loop over occurrences finds whether one of those it visits is followed by an assignment |
| Redaction.AnyAssignmentIsFound | crates/repo-com-audit/src/redact.rs:331-349 | no term of the two lists can overlap itself, so that the search finds an assignment exactly when any occurrence of any term is followed by one |
| MetadataFields.TwoPasses | crates/repo-com-audit/src/redact.rs:248-272 | two passes over an object with the field names the crates use redact each text twice and keep names, numbers and gaps |
| Redaction.TimestampIsSafe | crates/repo-com-audit/src/event.rs:359-367 | an accepted timestamp is never taken for something sensitive, so that the envelope keeps it |
| Redaction.StoredIsRead | crates/repo-com-audit/src/event.rs:174-331 | what is stored is the caller's envelope unchanged and the metadata after two passes, and reading it back, two passes more, returns exactly what is stored |
| RedactionRules.StoredExactlyIf | crates/repo-com-audit/src/event.rs:174-331 | an event is stored if and only if its seven names are plain, its time is accepted, and its metadata is an object or none; and with its names and time as they are and the metadata redacted twice |
| Paging.Query | crates/repo-com-audit-query/src/query.rs:106-200 | fetching up to one row more than the page holds, truncating, reading back and building the cursor |
| Paging.QuerySucceeds | crates/repo-com-audit-query/src/query.rs:106-200 | on a log as it is written a valid query succeeds; the page is the first rows of the selection, `truncated` is true exactly when matches remain, and the cursor is valid and at the last row |
| PagingRules.RefusedExactlyIf | crates/repo-com-audit-query/src/filter.rs:207-252 | a query is refused over its filter if and only if repository, page size, one of the identifiers or the range of times is not in order, and else over its cursor exactly if that is not one of the repository |
| PagingRules.SelectsExactly | crates/repo-com-audit-query/src/query.rs:106-143 | a row is selected if and only if it fits every field of the filter and comes after the cursor |
| Paging.SelectAscends | crates/repo-com-audit-query/src/query.rs:122-143 | the selection is strictly ordered by time key and id |
| Paging.FollowReturnsEachOnce | crates/repo-com-audit-query/src/query.rs:106-200 | following the cursors while rows are appended returns only matching rows, in order, none twice, and once the last page is read every row that matched at the start |
| Paging.UnchangingLog | crates/repo-com-audit-query/src/query.rs:106-200 | on an unchanged log the walk returns the whole selection in as many pages as it fills |
| Paging.PagesForIsCeiling | crates/repo-com-audit-query/src/query.rs:106-200 | that number of pages is at least one and otherwise the rows divided by the page size, rounded up |
| Paging.WrittenRowsAreValid | crates/repo-com-audit-query/src/query.rs:24-43 | rows that the audit service wrote are read back by a query as they are |
| Permissions.Apply | crates/repo-com-discord-client/src/setup.rs:847-910 | the loops over overwrites and roles compute the permissions, with each error where the code has it |
| Permissions.EveryBitIsSettled | crates/repo-com-discord-client/src/setup.rs:847-910 | every bit is settled by the member's overwrite, else by the roles' together, else by everyone's, allowing before denying at each level; exactly the well-formed overwrites of the right kinds are accepted |
| Permissions.OrderDoesNotMatter | crates/repo-com-discord-client/src/setup.rs:847-910 | order of overwrites and order and repetition of roles change neither result nor error |
| Permissions.NewContext | crates/repo-com-discord-client/src/setup.rs:793-829 | the loops that read the guild's roles and join those of the member |
| Permissions.BaseIsTheUnion | crates/repo-com-discord-client/src/setup.rs:812-821 | the base permissions are those of everyone and of the member's roles together, and every role must be known |
| Permissions.AdministratorHasAll | crates/repo-com-discord-client/src/setup.rs:831-844 | an administrator has the base permissions and the four that setup asks for, and no others, even under malformed overwrites |
| Permissions.OthersAreSettled | crates/repo-com-discord-client/src/setup.rs:831-844 | anyone else's permissions are settled bit by bit by the overwrites, and fail exactly if an overwrite is malformed or one that is used has the wrong kind |
| Permissions.ClearBits | crates/repo-com-discord-client/src/setup.rs:912-915 | clearing the bits of a 64-bit word is, at every bit, difference of masks |
| Permissions.SetBits | crates/repo-com-discord-client/src/setup.rs:912-915 | setting the bits of a 64-bit word is, at every bit, union of masks |
| Permissions.WordsAreTheirBits | crates/repo-com-discord-client/src/setup.rs:912-915 | words that differ, differ in some bit |
| Permissions.ApplyOneIsMasking | crates/repo-com-discord-client/src/setup.rs:912-915 | the mask of `word` without `deny`, joined with `allow` is that of the word with one overwrite applied |
| Permissions.JoinedWords | crates/repo-com-discord-client/src/setup.rs:812-821 | the mask of two words joined is the union of their masks |
| Permissions.MasksAreWords | crates/repo-com-discord-client/src/setup.rs:912-915 | words with one mask are one word |
| TokenScan.ContainsDiscordTokenShape | crates/repo-com-ci-policy/src/lib.rs:621-652 | true if and only if a run of at least 8, 3 and 8 token characters joined by dots starts where no token character precedes |
| TokenScan.MeasureRuns | crates/repo-com-doc-validation/src/lib.rs:711-724 | the cursor and the three lengths measure the runs joined by dots, in this second copy as in the first |
| TokenScan.HasDiscordTokenShape | crates/repo-com-audit/src/redact.rs:351-394 | the audit log's own loop finds whether two runs stand between the next two dots of some start and a third after them |
| TokenScan.DottedIsShape | crates/repo-com-audit/src/redact.rs:351-394 | looking for dots and looking for runs find the same texts |
| TokenRules.ShapeExactlyIf | crates/repo-com-ci-policy/src/lib.rs:621-652 | what a token looks like, character by character: at least 8, 3 and 8 of its characters between two dots, none before |

## Left out

- SQL text, SQLite, lock timeouts and the loops that retry them: a transaction is one step that commits or changes nothing.
- HTTP, endpoints, tokens and response parsing: a request is its typed outcome.
- Send eligibility, the match of a tuple with the configuration, and the secret scanner: their results are inputs of claims and previews.
- The existence of the draft revision that a claim or an approval refers to (a foreign key), and the comparison of the draft's rows with a preview, which is an input of the approval.
- Revoking approvals, which no code outside the contract tests does.
- What retention and purge do outside attempts and log rows: which drafts they remove, and whether they fail over another table, are inputs of a job; deleting approvals is not modelled.
- DeliverySafety.Loads: the look-up of the draft revision is left out, a foreign key keeping that row; what redaction and the look-up of an activation do to the metadata is in AttemptLog and DeliveryLog, not in this lemma.
- DeliveryRuns.RowAndLogAgree: the same holds of loading here; DeliveryLog.EveryAttemptReadsBack is about the redacted log.
- DeliveryRuns.PermitOnlyWhenDue: one direction; DeliveryProgress.GrantedExactlyWhenDue is both.
- Unicode NFC and the letters and digits beyond ASCII: the text is composed, and a parameter says which of those characters are alphanumeric.
- SHA-256 and JSON text: injective functions and values.
- `julianday`: an arbitrary number for each timestamp; that it rounds means that the order of pages is by that number.
- `reconcile_attempt`, which anchors the observation window anew at each call: absence is claimed for `reconcile`.
- `compare_cursor_values`, which is not an order on mixed cursors.
- Configuration discovery, command line parsing, terminal rendering, protocol envelopes, diagnostics and inbound items: tables, plumbing and single checks.
- RetryRunner: durations are whole milliseconds, and the evidence attached to unknown results is not modelled.
- Permissions.Apply: masks are sets of bits, tied to 64-bit words by ApplyOneIsMasking, JoinedWords and MasksAreWords.
- TokenScan.MeasureRuns: the three-cell array of lengths is a record of three numbers.
- Paging.Query: selection and order, which the database performs, are a function; the loops are those of the program.
