# Grants service: delivery, bucket queries and agreements, modelled in Dafny

These modules model the parts of the grants application service whose correctness depends on
many steps agreeing with each other, and prove what those steps promise together:

- **Inbox and outbox delivery** (`BoxRows`, `BoxProtocol`, `BoxRuns`, `BoxTerms`, `BoxRepository`,
  `FifoLocks`, `FifoDelivery`).
  Pollers claim shared rows under a token, work on an in-memory copy and write it back whole;
  sweeps expire, resubmit and bury rows, operators redrive, purge and edit them, and a TTL index
  deletes them. Every database update is one atomic step of a transition system. A completing
  write may be acknowledged, lost, or reach the database and still throw.
- **Bucket queries** (`BucketPlan`, `BucketRead`, `KeysetPaging`, `BucketPaging`, `PageSizes`,
  `BucketSummary`).
  A planner picks an index line, a pager reads it page by page after a keyset cursor and down to a
  scan edge, and a summary steps through distinct values and counts them.
- **Agreements** (`AgreementIdentity`, `AgreementReconcile`, `AgreementHistory`, `AgreementStore`,
  `AgreementCommit`, `AgreementLifecycle`, `AgreementRuns`, `AgreementRepository`,
  `DefinitionLoading`). Racing requests commit actions by version check and idempotency key;
  identities come from a high-water sequence; definitions are loaded with fallback.
- **Payload differences and links** (`Numerals`, `JsonPointer`, `PayloadDiff`, `DiffMeaning`,
  `LinkKeys`).
  A capped recursive diff that reports the pointers of RFC 6901 (sections 3 and 4), and links that
  keep the case of their parts through lower-casing. `Wrappers` and `Collections` are shared helpers.

Code that updates stored documents or fields in the original is a class here whose methods are
proved against functions of the old state; the protocols are then proved over those functions.
`dafny verify dfyconfig.toml` checks everything.

## What is assumed

- Every database update, find-and-update and transaction is one atomic step; reads see the primary.
  An update of many rows is a run of one-row steps (`BoxRuns.BulkSweepIsARun`), so nothing is lost
  by taking rows one at a time.
- The retry cap, claim expiry and retention are constant during a run. Rows have a segregation
  reference.
- A claim token never claims a row it has claimed before: tokens are random, and a claim loop does
  not outlive its own claims. `BoxRuns.ClaimIsCountedExactlyWhenNew` says what of this the counts
  need, and `BoxRuns.ReclaimUnderOneTokenLosesAnAttempt` shows what happens without it.
- A failure may carry no error; then it leaves no history entry, as in the code, and the history is
  of the failures that carried one.
- Definition loading takes any finite set of versions that others may write to; that others stop
  adding new ones is what its termination needs.
- "One dispatch per reference" assumes that no lock is swept while its holder works;
  `FifoLocks.SweepIsSafeExactlyWhenTimely` says that this is exactly what is needed.
- That the chosen line holds most of what is needed assumes that an index names each fact once.
- Plan independence assumes that each closed fact of a stored row holds a listed value or null, as
  the stamping migration asserts; `BucketRead.SelectsExactly` says what holds without it.
- Identity ordinals stay safe integers (at most 2^53 - 1); beyond that the code drops the recorded
  sequence (`AgreementHistory.NextIsBeyondExactly`, `AgreementHistory.UnsafeSequenceStartsOver`).
- Line items of candidates carry exactly one reference, as the candidate schemas require
  (`src/agreements/schemas/agreement-value-candidate.schema.js:51-67`).

## Where code and comments differ

- A failing write after a completing write that threw keeps the completion date the latter put on the
  copy (`src/events/models/inbox.js:120-134` does not reset it).
- The creation resolution also accepts the exact version asked for when it has no file location
  (`src/agreements/use-cases/load-agreement-definition.js:51-60` looks only at status), so
  `DefinitionLoading.IsEligible` requires a location of every other version only.
- Reconciliation alone lets one existing id be selected twice;
  `AgreementHistory.TransitionIdsAreDistinct` says that ids are distinct exactly if it is not. The
  value schema's uniqueness rule refuses the rest.
- The log line for a lock that could not be taken is never reached: an upsert that finds the lock
  held fails on the unique index, so `FifoLocks.FifoLockRepository.SetFifoLock` fails.

## Model

| member | source | states |
|---|---|---|
| BoxRows.HistoryIsLastTenFailures | src/events/last-error.js:125-144 | The in-memory append to a trimmed copy and the server-side push with slice both leave exactly the last ten of all entries recorded so far. |
| BoxRows.LastTenAreTheLatest | src/events/last-error.js:125-144 | The trimmed history is the latest entries, counted from the end, ten or as many as there are. |
| BoxProtocol.StepKeepsInv | src/events/repositories/inbox.repository.js:56-294 | Every step by a poller, sweep, operator or the TTL index keeps the whole invariant: claims, deadlines, attempts, history, revisions, originals, and that a copy under a standing claim agrees with its row. |
| BoxRuns.RunKeepsInv | src/events/subscribers/inbox.subscriber.js:123-174 | The invariant holds after any run of those steps in any order, given fresh tokens. |
| BoxRuns.CompletingWriteActsOnItsOwnClaim | src/events/repositories/inbox.repository.js:198-206 | A completing write changes a row if and only if it arrives while that row is PROCESSING under the same claim; then it changes status, dates and claim and, in the inbox, the derived order, and nothing else of that or any row. |
| BoxRuns.FailingWriteActsOnItsOwnClaim | src/events/subscribers/outbox.subscriber.js:146-198 | The same for a failing write, also after a completing write that threw: exactly one attempt and one history entry are added to the row's own, and every other column is the row's own or the failure's. A completion date that a completing write left on the copy stays. |
| BoxRuns.OutlivedClaimNeverWrites | src/events/repositories/inbox.repository.js:198-206 | Once a row has left a handler's claim, neither of that handler's writes changes any row in any continuation of the run. |
| BoxRuns.OperationsEndClaims | src/events/event-redrive.js:20-34 | Any of the four sweeps, a redrive, a purge or an edit that takes effect leaves no claim on the row. |
| BoxRuns.StepEffect | src/events/repositories/outbox.repository.js:58-206 | The whole lifecycle: which step may move a row from which status to which, who may set a claim, and that only the TTL index deletes, and only kept rows. |
| BoxRuns.CompletedIsFinal | src/events/models/outbox.js:83-93 | A completed row is left exactly as it is over every continuation, until it is deleted. |
| BoxRuns.GivenUpUntilReleased | src/events/repositories/inbox.repository.js:118-145 | However long the run, a dead letter leaves its status only by purge or redrive and is not deleted; a purged row leaves it only by redrive. |
| BoxRuns.ClaimsAndDeadlinesAreExact | migrations/20260921120000-expire-completed-events.js:57-65 | In every reachable state claims stand exactly on PROCESSING rows and deadlines exactly on COMPLETED and PURGED ones, so the TTL index cannot delete a row still to be delivered. |
| BoxRuns.AttemptsCountClaims | src/events/models/inbox.js:120-134 | Since the last redrive, claims number the completion attempts, plus one if PROCESSING or COMPLETED, and never exceed the cap; the history is the last ten recorded failures. |
| BoxRuns.DeliveriesAreBounded | src/events/event-redrive.js:20-34 | The steps of a run that hand a copy of a row to its handler number at most its claims, and those at most the cap, and as often again for every redrive. |
| BoxRuns.StepCountsDelivery | src/events/subscribers/inbox.subscriber.js:152-174 | No claim is dispatched twice: each dispatch is of a claim not delivered before, and no other step delivers. |
| BoxRuns.RevisionCountsOperations | src/events/event-edit.js:30-64 | The payload revision is the number of edits, purges and redrives; the original payload of an edited row is the event as inserted, and a row never edited still holds it. |
| BoxRuns.RunCountsGrow | src/events/repositories/outbox.repository.js:99-105 | Unless an edit is counted the event stays the same over every run, although pollers write it back whole. |
| BoxRuns.EditLandsOnlyOnWhatWasShown | src/grant-admin/use-cases/edit-payload.use-case.js:64-116 | An edit against a revision succeeds only if the row was not edited, purged or redriven since, and so still held the payload shown. |
| BoxRuns.BulkSweepIsARun | src/events/repositories/inbox.repository.js:88-180 | An update of many rows is a run of one-row steps with the same result. |
| BoxRuns.ReclaimUnderOneTokenLosesAnAttempt | src/events/repositories/inbox.repository.js:56-86 | A concrete run in which one token claims a row twice and an attempt is lost: why tokens must be fresh. |
| BoxRuns.ClaimIsCountedExactlyWhenNew | src/events/repositories/inbox.repository.js:63-79 | A claim keeps the count of attempts exact if and only if its token has not claimed the row since the last redrive. |
| BoxTerms.RowsAreOnTerms | src/events/event-edit.js:48-64 | Over a whole run a row holds the payload of its last edit that landed, or else the one inserted, is ordered by that payload's time, is swept for expiry exactly when its own claim has outlived the configured time, and is deleted exactly when its retention since its completion or purge has passed. |
| BoxTerms.RunKeepsTerms | src/events/repositories/outbox.repository.js:58-206 | Payload, order, claim time and deadline of every row stay what an observer of the run's steps has written down, whichever pollers, sweeps and operators take turns. |
| BoxTerms.EditsExactly | src/events/event-edit.js:48-64 | An edit's write lands exactly if the row is redrivable and at the revision read; then the row holds the payload given, in the inbox in that payload's place, under the next revision, with the original kept. |
| BoxTerms.ReadsExactly | src/grant-admin/use-cases/edit-payload.use-case.js:64-101 | Reading for an edit succeeds exactly if the row is redrivable at the revision shown, and keeps the payload as the original unless an edit has kept one. |
| BoxTerms.ClaimsExactly | src/events/repositories/inbox.repository.js:63-79 | A claim takes only a published, free row below the cap, for the configured time. |
| BoxTerms.ExpiresExactly | src/events/repositories/inbox.repository.js:88-116 | The expiry sweep takes exactly the rows whose claim has outlived its time, counts the attempt, appends it to the failures recorded and ends the claim. |
| BoxTerms.BuriesExactly | src/events/repositories/inbox.repository.js:118-145 | The dead-letter sweep takes exactly the rows that have failed as often as the cap since the last redrive and are not closed. |
| BoxTerms.MovesOnExactly | src/events/repositories/inbox.repository.js:147-180 | Failed rows are resubmitted and resubmitted ones published, and nothing else of any row changes. |
| BoxTerms.RedrivesExactly | src/events/event-redrive.js:20-34 | A redrive starts a dead letter or purged row over, keeping its payload and last error. |
| BoxTerms.PurgesExactly | src/events/event-purge.js:25-41 | A purge keeps everything of a dead letter and gives it a deletion date its retention away. |
| BoxTerms.DeletesExactly | migrations/20260921120000-expire-completed-events.js:57-65 | The TTL index deletes a row exactly if it is closed and its retention since then has passed. |
| BoxRepository.BoxEvent.FromDocument | src/events/models/inbox.js:53-94 | A poller's copy is the stored columns without the claim, history trimmed and the inbox's order derived anew. |
| BoxRepository.BoxEvent.MarkAsFailed | src/events/models/inbox.js:120-134 | One failure counted and appended; a permanent failure is a dead letter at once, in the inbox only. |
| BoxRepository.Box.ClaimEvents | src/events/repositories/inbox.repository.js:56-86 | An undisturbed batch is the oldest claimable rows of the reference, in order, each claimed under the token, as many as allowed or all there are, and no other row is touched. |
| BoxRepository.Box.FindNextMessage | src/events/repositories/inbox.repository.js:43-54 | The next reference is that of an oldest claimable row whose reference nobody has locked, if there is one. |
| BoxRepository.Box.Update | src/events/repositories/inbox.repository.js:200-206 | The fenced write replaces the models' columns of its own row if and only if the claim stands. |
| BoxRepository.Box.EditPayload | src/grant-admin/use-cases/edit-payload.use-case.js:92-116 | The edit's read and fenced write in one transaction, column by column: the row holds the payload given, in the inbox in its place, under the next revision, the original kept by the first edit alone; without a landing edit nothing changes. |
| BoxRepository.HandledEndsClaim | src/events/subscribers/inbox.subscriber.js:152-168 | After one event is handled its row is still under the handler's token if and only if it was and none of the writes reached the database, and then nothing changed; no other row changes in any case; a batch goes on only past an event some write of which reached it. |
| BoxRepository.HandledRowIs | src/events/subscribers/inbox.subscriber.js:152-168 | A row handled under its claim is completed as soon as the completing write reaches it, whatever follows; if the failing write does, it has failed, or in the inbox is given up if the failure is permanent, with one attempt more and the failure's error. |
| BoxRepository.ProcessEvents | src/events/subscribers/inbox.subscriber.js:170-174 | Events are handled in order up to the first whose failing write throws; a row some write reached is no longer under the token, and every other row, of the batch or not, is as it was. |
| FifoLocks.FifoLockRepository.SetFifoLock | src/events/repositories/fifo-lock.repository.js:15-26 | Taking a lock succeeds exactly if nobody holds it, and otherwise fails on the unique index and changes nothing. |
| FifoLocks.OneHolderPerReference | src/events/repositories/fifo-lock.repository.js:15-38 | In every timely run at most one poller per actor and reference is between taking and freeing the lock. |
| FifoLocks.FreedMayBeTaken | src/events/repositories/fifo-lock.repository.js:28-38 | Freeing makes the holder's own reference takable and no other. |
| FifoDelivery.StepKeepsInv | src/events/subscribers/outbox.subscriber.js:92-112 | Pollers that claim only rows of the reference they have locked and handle them one after another, among sweeps, operators, crashes and other actors, keep every claimed copy with the one holder of its reference, only the first of a batch being dispatched. |
| FifoDelivery.OneDispatchPerReference | src/events/subscribers/outbox.subscriber.js:92-205 | In every timely run two copies being dispatched whose segregation reference is the same are the same copy. |
| FifoDelivery.RowsOfOneReferenceTakeTurns | src/events/subscribers/inbox.subscriber.js:58-91 | The same over stored rows, whose reference no step changes: two rows of one reference are never being dispatched at once, nor one row twice, even after its claim expired. |
| FifoDelivery.RunIsABoxRun | src/events/subscribers/inbox.subscriber.js:123-174 | Every run under locks is a run of the delivery protocol on the rows, so the results over those runs hold. |
| FifoDelivery.ReleasesExactly | src/events/subscribers/outbox.subscriber.js:92-112 | A poller that has handled its batch frees its lock and gives up what is left of its batch, and one still at work keeps both. |
| FifoDelivery.AFreeReferenceIsServed | src/events/subscribers/outbox.subscriber.js:92-112 | A free reference with a row to deliver is served: lock, claim, dispatch, complete and release leave that row completed, the reference free and every other row untouched. |
| FifoLocks.SweepIsSafeExactlyWhenTimely | src/events/repositories/fifo-lock.repository.js:40-56 | A stale-lock sweep keeps the serialisation invariant if and only if no holder of the actor has worked longer than the TTL. |
| FifoLocks.UntimelySweepAdmitsTwo | src/events/repositories/fifo-lock.repository.js:40-56 | After an untimely sweep a second poller takes the reference while the first still works. |
| FifoLocks.CrashedLockComesBack | src/events/repositories/fifo-lock.repository.js:15-56 | The lock of a poller that died cannot be taken at first, and after the TTL and a sweep can. |
| BucketPlan.ChosenPlanIsUsable | src/common/buckets/plan.js:42-85 | For every bucket accepted, the chosen plan fills only closed facts, within the scan limit, and is exact if and only if nothing is left over. |
| BucketPlan.PlanIsLexicographicallyBest | src/common/buckets/plan.js:50-85 | Among the usable lines and the time-only line, the chosen one binds most needed facts, then takes fewest scans, then is declared first. |
| BucketPlan.ChosenHoldsMost | src/common/buckets/plan.js:50-85 | In terms of which facts a line holds: no line that can be read holds more needed facts than the chosen one, nor as many at fewer scans, and of those declared earlier none does as well. |
| BucketPlan.ExactWheneverPossible | src/common/buckets/plan.js:42-85 | If some line that can be read holds every needed fact, the plan is exact. |
| BucketPlan.PlanIsReadOffItsLine | src/common/buckets/plan.js:28-85 | A plan fills what its line holds unasked, leaves over what is asked, or hidden and neither asked nor shown, and not on its line, and is exact if and only if that is nothing. |
| BucketPlan.LeadIsUsable | src/common/buckets/bucket.js:83-89 | The lead rules a bucket must meet make the time-only line and the reference line usable for every request. |
| BucketRead.SelectsExactly | src/common/buckets/engine.js:123-201 | Bound, filled and residual conditions together select a row if and only if its asked facts are as asked, it shows nothing hidden, and it holds listed values or null in the facts tested unasked. |
| BucketRead.PlansAgree | src/common/buckets/engine.js:123-201 | Over well stored rows any two plans of a request, the reference line's included, select the same rows. |
| BucketRead.UnlistedValueSplitsPlans | migrations/20261014110000-stamp-event-facts.js:138 | Without that assumption a row with an unlisted value is lost by a plan that fills the fact and kept by one that does not. |
| BucketRead.ExactCountsWhatIsListed | src/common/buckets/engine.js:196-201 | For an exact plan the index conditions alone select what the list selects. |
| BucketRead.ChosenIsPlanOf | src/common/buckets/plan.js:80-85 | The planner's choice is one of the plans these results are about. |
| KeysetPaging.EdgeIsFurther | src/common/buckets/engine.js:221-242 | The edge of a bounded read lies beyond the cursor, so looking on makes progress. |
| KeysetPaging.PagesMakeTheSortedList | src/common/buckets/engine.js:170-304 | Over an unchanging collection following cursors ends, and the joined pages are the selected rows sorted newest first; how long each page is, `PageSizes.PageIsAsLongAsAsked` says. |
| PageSizes.PageIsAsLongAsAsked | src/common/buckets/engine.js:291-304 | A page holds the newest of what is left, as many as asked for or all there are; it has a next cursor, that of its last row, exactly if there are more, otherwise the edge if there is one, and else is complete. |
| PageSizes.WalkIsItsPages | src/common/buckets/engine.js:291-304 | Whatever changes between reads, a walk is its pages joined, none longer than the limit and every page with a next one full. |
| PageSizes.ExactPagesAreChunks | src/common/buckets/engine.js:291-304 | An exact plan pages its list out in pieces of exactly the limit, the last perhaps shorter. |
| PageSizes.EdgeIsAtTheBudget | src/common/buckets/engine.js:221-242 | A bounded read has an edge exactly if there are 20,000 rows to scan, and scans just that many down to it. |
| PageSizes.ScannedExactly | src/common/buckets/engine.js:221-242 | What counts towards the budget: the rows as asked in the facts of the line, holding a listed and shown value in the filled ones, of the reference and range. |
| BucketPaging.WalkDeliversExactlyOnce | src/common/buckets/engine.js:170-304 | With rows inserted, deleted and changed between reads, no row is delivered twice, and a completed walk has delivered every row selected throughout. |
| BucketPaging.AnyPlanPagesTheWantedList | src/common/buckets/engine.js:291-304 | Any plan, exact or bounded, pages out exactly the rows the request is for, newest first, and terminates. |
| BucketPaging.ExactCountIsTheListsLength | src/common/buckets/engine.js:306-315 | The count of an exact plan is the length of the whole list, capped, with the flag set exactly when it is longer. |
| BucketSummary.CompleteFindsEveryRow | src/common/buckets/summary.js:73-128 | If the answer is complete, every row of the summary has its combination found: no step that was cut can have gone unnoticed. |
| BucketSummary.CompleteExactly | src/common/buckets/summary.js:73-191 | Whatever values the cut steps keep, a summary answers complete if and only if its rows show at most 100 combinations. |
| BucketSummary.FillsAreTheScans | src/common/buckets/plan.js:35-40 | The fills of a line are as many as the scans the planner counted for it. |
| BucketSummary.CutStepIsTooMany | src/common/buckets/summary.js:54-96 | A distinct-value step that was cut leaves more combinations than a complete answer may have. |
| BucketSummary.WideningAllNeverLosesCount | src/common/buckets/summary.js:88-96 | Stepping on from combinations found never leaves fewer of them. |
| BucketSummary.EntryCountsItsOwn | src/common/buckets/summary.js:147-166 | An entry counts exactly the rows of the summary whose combination it is. |
| BucketSummary.CompleteSummaryConservesRows | src/common/buckets/summary.js:31-191 | If a summary answers complete, its entries with rows are exactly the combinations present, and their uncapped counts add up to the rows the list shows for `among` in that range. |
| AgreementIdentity.OrdinalRoundTrip | src/agreements/models/agreement-identity-sequence.js:1-4 | An id has ordinal n > 0 if and only if it is the printed identity of n: printing and parsing undo each other. |
| AgreementIdentity.MaterialiseMeans | src/agreements/models/materialise-agreement-identities.js:59-86 | Materialising entries succeeds exactly if references are distinct and selected ids exist; then order and content are kept, fresh ids rise, and each reference leads to the entry that declared it. |
| AgreementIdentity.FailureNamesTheFault | src/agreements/models/materialise-agreement-identities.js:34-75 | A failure names an id that was selected and does not exist, or a reference that was declared before. |
| AgreementIdentity.LineItemMeans | src/agreements/models/materialise-agreement-identities.js:123-193 | A line item resolves exactly if what it refers to is declared or survives; then it has one persisted reference, naming the entry of its own type that it meant. |
| AgreementReconcile.MaterialiseEntries | src/agreements/models/materialise-agreement-identities.js:77-86 | The loop over a shared allocation and reference map computes the function the identity results are about, failures included. |
| AgreementReconcile.ReconcileIdentities | src/agreements/models/materialise-agreement-identities.js:225-276 | Creation and transition as loops compute the reconciliation function. |
| AgreementReconcile.ScheduleMeans | src/agreements/models/materialise-agreement-identities.js:202-223 | A schedule is made exactly if every selected instalment exists and every line item resolves; order, content and line items are kept. |
| AgreementReconcile.CreationCountsFromOne | src/agreements/models/materialise-agreement-identities.js:28-32 | Creation numbers actions, items and instalments each from one, in order and without a gap. |
| AgreementHistory.ReconcileMeans | src/agreements/models/materialise-agreement-identities.js:225-276 | Reconciliation as a whole: exactly when it succeeds, and that order and content are kept, ids are selected or fresh, and references lead where they meant. |
| AgreementHistory.NothingDangles | src/agreements/schemas/agreement-value.schema.js:244-276 | The schema's dangling-reference check never fails on what reconciliation gives. |
| AgreementHistory.CreatedIdsAreDistinct | src/agreements/models/materialise-agreement-identities.js:225-247 | Creation gives pairwise distinct ids in every namespace. |
| AgreementHistory.TransitionIdsAreDistinct | src/agreements/models/materialise-agreement-identities.js:249-276 | A transition gives distinct ids if and only if no id is selected twice. |
| AgreementHistory.RebuildingChangesNothing | src/agreements/models/agreement.js:53-58 | Reading a stored agreement back resolves the same sequence. |
| AgreementHistory.SequenceBoundsEverything | src/agreements/models/agreement-identity-sequence.js:25-37 | Over any chain of versions the sequence never falls and bounds every ordinal any earlier version used. |
| AgreementHistory.FreshIdIsNew | src/agreements/models/materialise-agreement-identities.js:99-121 | An id a version did not take over from the one before appears in no earlier version at all. |
| AgreementHistory.RemovedIdNeverReturns | src/agreements/models/materialise-agreement-identities.js:28-47 | An id once removed is in no later version. |
| AgreementHistory.UnsafeSequenceStartsOver | src/agreements/models/agreement-identity-sequence.js:12-15 | For every ordinal beyond safe integers, a chain of versions that drops it from the record, numbers from 1 again and brings a removed id back. |
| AgreementHistory.NextIsBeyondExactly | src/agreements/models/agreement-identity-sequence.js:12-37 | The next ordinal is beyond all recorded if and only if the record is a safe integer or something in use attains it. |
| AgreementHistory.SequenceHoldsExactly | src/agreements/models/agreement-identity-sequence.js:25-34 | From one version to the next the sequence does not fall if and only if the record is a safe integer or the new values reach it. |
| AgreementLifecycle.TargetResolvesToItsOnlyAction | src/agreements/models/agreement-lifecycle.js:45-69 | A target resolves to an action if and only if that action leads there and no other does. |
| AgreementLifecycle.DefaultOffers | src/agreements/models/agreement-lifecycle.js:6-25 | What the default lifecycle offers: an offer is accepted, withdrawn or cancelled, an accepted agreement terminated, and nothing else leads anywhere. |
| AgreementLifecycle.TransitionMeans | src/agreements/models/agreement.js:71-121 | A transition is one some definition allows, one version on, of the same agreement and source; the acceptance time is kept if there is one, set to the time of this transition if it leads to accepted, and else stays absent; only acceptance changes the definition version. |
| AgreementCommit.StepKeepsInv | src/agreements/use-cases/execute-agreement-action.use-case.js:133-230 | Creation, loading, looking up a key, checking, writing and resolving by any number of clients, interleaved in any way, keep store and clients right. |
| AgreementCommit.IndexesNeverRefuse | migrations/20260724053520-replace-agreement-item-indexes.js:20-34 | In every reachable state the version check alone decides a commit; neither unique index can then refuse it. |
| AgreementCommit.UndisturbedRequestCommits | src/agreements/use-cases/execute-agreement-action.use-case.js:133-181 | A request nobody disturbs, whose key is new and whose action leads on, commits: document, version, publications and payment event are exactly those of its transition. |
| AgreementCommit.LoserIsToldStale | src/agreements/use-cases/execute-agreement-action.use-case.js:183-230 | A request that lost the race and whose key nobody recorded is told that its version is stale, never that the agreement does not exist. |
| AgreementCommit.CreatesExactly | src/agreements/use-cases/create-agreement.use-case.js:72-90 | Creation stores the document and its first version exactly if number and source are both free, and else nothing. |
| AgreementRuns.EveryRunIsRight | src/agreements/use-cases/execute-agreement-action.use-case.js:90-181 | In every run of racing clients: versions are 1 to n, the current document is the last snapshot, each version follows the last under its action, the acceptance time is that of the first version accepted, publications match state changes, a key has one version and a source one agreement, and of the requests with one key one commits at most, with the payment it asked for. |
| AgreementRuns.VersionsAreOneToN | src/agreements/repositories/agreement.repository.js:53-74 | A number's stored versions are exactly 1..n and the current document equals version n's snapshot. |
| AgreementRuns.FollowingMeans | src/agreements/models/agreement-definitions/compile-agreement-action-execution.js:9-36 | That a version follows another means that a published definition's execution of the action leads from the one to the other, with all that `TransitionMeans` says of it. |
| AgreementRuns.AcceptedOnce | src/agreements/models/agreement.js:116-121 | Once set, the acceptance time is the same in every later version, and a transition to accepted leaves it set. |
| AgreementRuns.AcceptedSinceTheFirst | src/agreements/models/agreement.js:116-121 | A version has an acceptance time if and only if it or an earlier one was reached by a transition to accepted, and then it is the time of the first such version. |
| AgreementRuns.PublicationsTellOfStateChanges | src/agreements/use-cases/execute-agreement-action.use-case.js:90-116 | Both lifecycle publications are saved, once, for exactly those versions whose state is new, and the created one for first versions. |
| AgreementRuns.OneWritePerKey | src/agreements/use-cases/execute-agreement-action.use-case.js:133-181 | Of all requests with one idempotency key at most one commits, and its payment event is saved exactly if it asked for payment. |
| AgreementRuns.OneVersionOfAKey | migrations/20260724053520-replace-agreement-item-indexes.js:26-34 | In every run a key is recorded with one version of an agreement at most. |
| AgreementRuns.RecordedKeyDecides | src/agreements/use-cases/execute-agreement-action.use-case.js:52-68 | Once a key is recorded, a request carrying it writes nothing, and is told completed if the action is the same and refused if not. |
| AgreementRuns.LoserWritesNothing | src/agreements/use-cases/execute-agreement-action.use-case.js:183-230 | Over a whole run, no step of a request that does not end as committed changes the store. |
| AgreementRuns.RemovedIdNeverReturns | src/agreements/models/agreement.js:71-87 | However clients race, an identity removed from an agreement is in none of its later versions. |
| AgreementRuns.DefaultLifecycleEnds | src/agreements/models/agreement-lifecycle.js:6-25 | Under the default lifecycle no agreement ever has more than three versions, and which state each is in. |
| AgreementRepository.Agreements.InsertAgreementVersion | src/agreements/repositories/agreement.repository.js:58-61 | A version is stored unless one of the two unique indexes refuses it. |
| AgreementRepository.Agreements.CommitActionTransaction | src/agreements/use-cases/execute-agreement-action.use-case.js:133-181 | One transaction answers from its key, or writes document, version and events, or leaves everything as it was. |
| AgreementRepository.Agreements.CommitAgreementAction | src/agreements/use-cases/execute-agreement-action.use-case.js:210-230 | An undisturbed commit ends as the machine's check, write and resolve steps do. |
| AgreementRepository.Agreements.PersistWithAgreementNumberRetry | src/agreements/use-cases/create-agreement.use-case.js:97-125 | The agreement is stored under the first free number of five; it fails as exhausted exactly if all five are taken, and stores nothing when it fails. |
| AgreementRepository.Agreements.CreateAgreement | src/agreements/use-cases/create-agreement.use-case.js:22-48 | Requests for one source collapse onto one agreement, also when another creates it meanwhile. |
| DefinitionLoading.Definitions.ResolveTarget | src/agreements/use-cases/load-agreement-definition.js:35-67 | The target is the greatest eligible version, if there is any. |
| DefinitionLoading.Definitions.FindLatestUsableDefinition | src/common/config-broker/config-catalog.repository.js:65-92 | The greatest active, located version of the major, not above the bound and not failed for good. |
| DefinitionLoading.Definitions.LoadCompiled | src/agreements/use-cases/load-agreement-definition.js:141-203 | One load of a version as it was seen: from memory, refused if seen to be bad, or by its file; a missing, forbidden or unparseable file or an invalid definition is recorded as failed for good, any other failure as transient, and a fault of the endpoint's configuration not at all, in whatever the catalogue has become meanwhile. |
| DefinitionLoading.Definitions.LoadAgreementDefinition | src/agreements/use-cases/load-agreement-definition.js:233-254 | Whatever others write to the statuses and entries of a finite set of versions, before and during loads, it terminates and never leaves the scope asked for; undisturbed it settles on the greatest eligible version not failing for good, all above it recorded as permanently failed. |
| DefinitionLoading.OnlyHopelessIsRecordedForGood | src/agreements/use-cases/load-agreement-definition.js:114-139 | Undisturbed, a version is newly recorded as failed for good only if its file is missing, forbidden or unparseable or its definition is invalid. |
| DefinitionLoading.MendableFailuresAreThrown | src/agreements/use-cases/load-agreement-definition.js:205-231 | With fallback a failure is passed on only if it may mend: a fetch that may succeed later, another passing error, or the endpoint's configuration; it is recorded as transient, or in the last case not at all, and all eligible versions above have failed for good. |
| DefinitionLoading.TargetDecides | src/agreements/use-cases/load-agreement-definition.js:205-231 | The current target is the pivot unless it fails for good, and then falling back leaves out nothing in between. |
| DefinitionLoading.PivotIsUnique | src/agreements/use-cases/load-agreement-definition.js:233-254 | What loading settles on is determined, and no eligible version above it loads. |
| Numerals.PrintParse | src/agreements/models/agreement-identity-sequence.js:1-4 | Printing the number parsed from digits without a leading zero gives the digits back, in decimal as in hexadecimal. |
| JsonPointer.EscapeRoundTrip | src/events/payload-changes.js:7-9 | Escaping a token has an inverse and leaves no separator. |
| JsonPointer.PointerIsInjective | src/events/payload-changes.js:11-12 | A pointer's text determines its path. |
| PayloadDiff.NoPathMeansEqual | src/events/payload-changes.js:54-71 | No path is reported if and only if the two values are equal, the order of members aside. |
| PayloadDiff.PathsAreDistinct | src/events/payload-changes.js:23-52 | No path of one diff is reported twice. |
| PayloadDiff.Changes.Walk | src/events/payload-changes.js:55-71 | The walk with early exit leaves the paths found before followed by the uncapped diff, cut one past the cap. |
| DiffMeaning.DiffFindsExactlyTheDifferences | src/events/payload-changes.js:23-71 | By looking paths up in the two values: a path is reported if and only if every step of it leads through containers that both have, of one kind, and at its end exactly one has something, or they differ in kind or as leaves. |
| DiffMeaning.ChildrenInOrder | src/events/payload-changes.js:23-32 | Children are walked by index, or an object's own keys before those only the other has. |
| DiffMeaning.PayloadChanges | src/events/payload-changes.js:77-86 | The report is the first fifty paths of the uncapped diff, each leading to a difference; the flag is set exactly if there are more, and unless it is every difference is reported; it is empty exactly for equal values, and its pointers are distinct. |
| LinkKeys.EscapeRoundTrip | src/events/case-refs.js:8-11 | The case-keeping escape has a decoder. |
| LinkKeys.LinkIsKey | src/events/case-refs.js:13-53 | There is no link exactly if a part is blank; otherwise the link is its kind and key unchanged by trimming and lower-casing. |
| LinkKeys.LinksAreInjective | src/events/case-refs.js:13-53 | Two links are equal if and only if kinds and trimmed parts are equal. |
| LinkKeys.RefsIgnoreCase | src/common/buckets/refs.js:4-8 | Two references of one kind are equal if and only if their trimmed texts are, letter case aside. |
| LinkKeys.LinkIsParsedAsItself | src/common/buckets/engine.js:52-64 | Asking a bucket for a link finds its kind and the very same text. |
| LinkKeys.ParsesExactly | src/common/buckets/engine.js:52-64 | A text asked for is split at its first colon, and gives a reference exactly if its kind is declared and something follows. |

## Left out

- BoxRepository.Box.EditPayload: does not model the refusals of payloads that are unchanged, too large, not an object or hold `$` keys; they come before the write and change nothing.
- BoxRows: truncated stacks, error keys, audit columns, stamps and message metadata are not part of a row here; `lastError` and history entries keep time, name and message.
- AgreementRuns.OneWritePerKey: payment is told per request that committed; that the audit event is written is not stated.
- DefinitionLoading.Definitions.LoadCompiled: two requests of one process that share a load in flight are not modelled; both get what the one load gives.
- DefinitionLoading.Definitions.LoadAgreementDefinition: does not terminate for others that add ever new versions; version texts that do not parse are not modelled. Versions are taken as their three numbers.
- AgreementRepository.Agreements.CommitAgreementAction: audit records and the entity tag of a stale answer are not modelled.
- LinkKeys.ToLower: lower-casing is fixed for ASCII text only; elsewhere it is any function, which the results allow. Text is a sequence of Unicode scalar values, so lone surrogates are not modelled.
- PayloadDiff.Json: numbers are finite, so that a number always equals itself; payload hashes are not modelled.
- Group tiles, stored-value lists, cursor text, read timeouts and row presentation of the bucket engine.
- Sorting, capping and cutting of a summary's entries to the top; the counts here are those before the cap.
- The poll loops and their timers, rows without a segregation reference, and inserts of many rows at once: runs order the same steps in every way.
- JSONata mappings and processes: what they produce is any candidate the schemas allow.
- Pages, routes, request schemas, authorisation, queue and file-store clients.
