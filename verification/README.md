# Verified model of the wowbagger coordination core

This project models, in Dafny, the parts of wowbagger that decide whether two
writers can hurt each other's work, and proves what they keep.

Wowbagger keeps a ledger of work items as Markdown files in a Git repository.
Writers coordinate through an append-only **claim journal**. Replaying it gives
**leases** (an owner, an epoch, an expiry) under a clock floor that never yields
to an earlier clock. Two write fences run *intent → item write → terminal*
under one namespace lock: the **legacy mutation fence** (patch, transition,
create) and the **claimed publication fence** (a lease holder publishes a
revision under an idempotency key). **Reconciliation** runs before every
mutating command: it advances the clock, closes what a crash left open,
records what Git HEAD carries, judges every surface against the journal and
refuses writes it cannot vouch for. A projection of the journal is tracked in
Git, and a fresh checkout **hydrates** its journal from it.

## How it is organised

| file | part |
|---|---|
| `Leases`, `LeaseSafety`, `ClaimLaws` | claim operations; epochs and lease windows over any run; what each command decides, and whose a live lease is |
| `Journal`, `JournalReader` | entries, replay, projection, rulings; the reader's whole-journal checks |
| `Reconciliation`, `Gate`, `SurfaceLaws` | reconciliation and its classifier as functions; gate soundness and the fixpoint; what each finding means and whom it refuses |
| `Protocol`, `Lawfulness`, `Fencing`, `RunGuarantees`, `FenceLaws` | the step system with crashes; the invariant of reachable journals; fencing, idempotency, finalizations; exactly when each fence admits |
| `Recovery`, `RecoveryLimits` | crash-exact recovery in one working tree, and exactly where it does less |
| `Coordinator` | the same commands as methods over a mutable store, proved to perform exactly the protocol's effects |
| `Hydration`, `HydrationRuns`, `HydrationLimits` | rebuilding a journal from its committed log, exactly what it keeps, and runs where it does not |
| `Prospective` | the prospective-merge check |
| `ClaimLock` | the namespace file lock under any interleaving |
| `NumberRepair`, `RepairProposal` | duplicate-number repair: crash recovery; proposal against checks |
| `Ledger`, `Readiness`, `ReportImpact`, `Lifecycle`, `LifecycleLaws` | derived-graph code and lifecycle runs |
| `CanonicalJson`, `JsonNumbers`, `BlobBatch`, `Decimal` | operation digests; the Git blob batch reader |
| `QuietJournals`, `Options`, `Seqs`, `Sorting` | what the concrete runs start from; shared helpers |

Commands hold the namespace lock while they run, so a run of the protocol is a
sequence of invocations, and each invocation is the list of its durable effects
(one journal append, one atomic item write). A crash, or an append that fails,
keeps any prefix of that list. Items may also be edited outside the protocol
and HEAD may move between invocations; the recovery results allow such edits
only on items the journal does not rule on, the fencing results allow any.

Instants are integers: millisecond UTC strings of fixed width sort as time.
Revisions are opaque values, one per byte string. The write engine reports an
atomic compare-and-swap that took effect or did not; the ledger validator is an
arbitrary predicate. Owner evidence from Git, clocks, identifiers and reports of
the write engine are parameters.

## What the code does that its documentation does not say

Each of these is shown in the project by the input on which the promise fails,
by the exact condition under which it holds, or by both.

* A publish intent is journaled before the revision compare-and-swap. A request
  drawn up against a stale revision that dies in between is recorded as an
  unknown outcome although the disk was never in doubt. The one reconciliation
  that records it blocks every writer and asks for a recovery; the next passes,
  recovered or not
  (`StaleCrashIsRecordedUnknown`, `PublishClosedExactly`,
  `PublishFindingsLastOnce`).
* When the write engine applies a publication but cannot tell, the final says
  unknown and the bytes on disk are authorized by nothing
  (`UnknownReportLosesAuthority`, `RulingIsLost`).
* The committed log leaves out the clock entries that decided its claims. A
  journal rebuilt from it has the same claim records exactly when each claim
  settles alike under the rebuilt floor, which can fail once the clock has gone
  backward (`HydrationKeepsClaimsExactly`, `BackwardTimeMovesLease`).
* Hydration's stand-in clock entries take the first stamp of the log, and a
  number repair stamps its final with the wall clock, so a rebuilt clock floor
  can run ahead of the original (`RepairStampRaisesFloor`, `HydratedFloor`).
* `recoverPendingRepair` reads the journal before it takes the lock and does not
  look again: two concurrent recoveries write two finals, and the journal reader
  then refuses the whole journal (`ConcurrentRecoveryBreaksJournal`,
  `UnlockedReadIsSafe`).
* The number-collision check keeps only the last holder of each number, so a
  replacement may be the number of an item that stays; the successor validation
  behind it is what refuses (`CollisionCheckIsNotEnough`, `SuccessorExactly`).
* A proposal for a ledger whose numbers are near the largest safe integer is
  itself an invalid request (`CrowdedProposalIsRefused`).
* The 64-byte framing allowance is used to the last byte by 40-character object
  IDs and sixteen-digit sizes; 64-character object IDs exceed it always
  (`OverheadIsExact`, `LongIdsExceedAllowance`).
* The lifecycle checks refuse to kill or archive an epic with open children, but
  let a deferred or archived child come back to the backlog under it; the
  validation of the successor ledger is what refuses that (`StepKeepsQuiet`,
  `KilledEpicGetsOpenChild`).
* Mutual exclusion can fail after any death of a process that holds the recovery
  file, and only after one (`DeathWhileRecoveringBreaksExclusion`).

## Model

| member | source | states |
|---|---|---|
| `LeaseSafety.EpochsIssuedOnce` | src/claim-operations.js:75-101 | Over any sequence of journal entries, with any physical times, the successful acquires of an item issue exactly 1, 2, 3, …, none twice and none above 2^64 − 1; the last one is `last_epoch`, and an active claim always carries it. |
| `LeaseSafety.WindowsNeverOverlap` | src/claim-operations.js:75-138 | No instant of effective time lies in the lease windows of two different epochs of one item, renewals and early releases included. |
| `LeaseSafety.LiveLeaseIsInItsWindow` | src/claim-operations.js:84-101 | A lease that is unexpired at the clock floor lies inside the window of its own epoch. |
| `LeaseSafety.NothingFalls` | src/claim-operations.js:6-11 | Between any two points of a run neither the clock floor nor any epoch high-water mark falls, even when physical time does. |
| `LeaseSafety.AcquireExhaustsLast` | src/claim-operations.js:79-93 | An acquire with the right witness on a free item is refused exactly when every epoch up to 2^64 − 1 has been issued, and otherwise issues the next one. |
| `LeaseSafety.ReleasedStaysReleased` | src/claim-operations.js:103-138 | Once a tuple is released no later active claim carries its epoch or a smaller one. |
| `LeaseSafety.RunAgrees` | src/claim-operations.js:6-138 | The invariant of every run: the windows opened so far against the replayed record and floor. |
| `ClaimLaws.AcquireExactly` | src/claim-operations.js:75-101 | Read off the journal it is appended to: an acquire conflicts exactly when its witness is not the record, is refused as held exactly when the lease is live, and otherwise gives the requester the next epoch from now for as long as asked. |
| `ClaimLaws.RenewOrReleaseExactly` | src/claim-operations.js:103-138 | A renewal or release succeeds exactly when the owner, epoch and expiry it names are the live lease's own; it conflicts when any of the three differs and is expired when only the time does. |
| `ClaimLaws.OthersKeepRecord` | src/claim-journal.js:94-105 | Only a claim command on an item touches its record. |
| `ClaimLaws.LiveLeaseMoves` | src/claim-operations.js:103-138 | The one entry that moves or ends a lease still live after it is a request of the lease's own owner, naming it as it was. |
| `ClaimLaws.LeaseIsItsOwners` | src/claim-operations.js:103-138 | In every run, a lease that is gone before its expiry was renewed or released by its own owner in between. |
| `Journal.ReplayClaimEntries` | src/claim-journal.js:94-105 | The replay loop computes the fold every other result is stated over. |
| `Journal.ReplayIgnores` | src/claim-journal.js:94-105 | Entries that are neither clock nor claim leave the replayed state alone, however many there are. |
| `Journal.ProjectedExactly` | src/claim-journal.js:28-36 | The tracked log carries, in journal order, every entry but clock entries and finalizations. |
| `Journal.LatestIsLastAuthorizing` | src/claim-publication.js:872-886 | The last element of the filtered list of rulings is the latest ruling on the item. |
| `JournalReader.CheckCreateResolution` | src/claim-journal.js:484-502 | The reader accepts the creates of a journal exactly when every create terminal is the first entry about its attempt after an intent of the same item, and commits what that proposed. |
| `JournalReader.CheckRepairResolution` | src/claim-journal.js:462-482 | The reader accepts the number repairs of a journal exactly when each repair id has one intent and at most one later final naming the same staging and exactly the intended candidates. |
| `JournalReader.CheckRepairEntry` | src/claim-journal.js:462-482 | One entry is accepted against the collected intents and finals exactly when it is valid after the entries before it. |
| `JournalReader.ReachableCreatesResolve` | src/claim-journal.js:208-232 | Every journal a run can leave, crashed anywhere, passes the reader's create check. |
| `Gate.GateIsSound` | src/claim-publication.js:696-780 | If a reconciliation does not block its target, every coordinated item with a ruling holds, on disk and at HEAD, no bytes or covered bytes, and the target (or, with no target, each of them) holds its latest authorized revision on disk. |
| `RunGuarantees.ReachableGateIsSound` | src/claim-publication.js:690-780 | The same in every reachable world and for every coordinated item, with no assumption left: a coordinated item always has a ruling. |
| `SurfaceLaws.ClaimedGateIsSound` | src/claim-publication.js:783-825 | If a reconciliation does not block, every uncoordinated item with a live lease has on disk what the last publication under that lease committed, last said by position. |
| `SurfaceLaws.RegressionBlocks` | src/claim-publication.js:783-825 | Otherwise every target is blocked: as pending when an earlier epoch committed what is on disk, as a regression when none did; a drifted coordinated item as pending. |
| `SurfaceLaws.MismatchExactly` | src/claim-publication.js:1000-1019 | The mismatch test finds a live lease whose last publication is not on disk, and tells an earlier epoch's bytes from others. |
| `SurfaceLaws.CoordinatedExactly` | src/claim-publication.js:690-695 | An item is coordinated exactly when some entry finalized a publication or committed a legacy mutation of it. |
| `SurfaceLaws.CoveredExactly` | src/claim-publication.js:696-711 | A revision is covered exactly when some entry ruled it legitimate or a legacy intent expected it. |
| `SurfaceLaws.LegacyUnknownExactly` | src/claim-publication.js:506-563 | An unknown legacy outcome is found exactly for an unresolved attempt whose item holds a third revision. |
| `SurfaceLaws.PublishFoundExactly` | src/claim-publication.js:567-649 | A recovered publication is found as unknown or as resolved exactly as the final this reconciliation appended for it says. |
| `SurfaceLaws.RecoveredExactly` | src/claim-publication.js:567-620 | Whatever the state, how recovery closes a publication: lost to the epoch exactly when a later one was issued, otherwise committed, in conflict or unknown exactly as the disk holds the candidate, the expected or once committed bytes, or neither. |
| `SurfaceLaws.RegressionFoundExactly` | src/claim-publication.js:783-825 | A regression is found exactly on an uncoordinated item whose bytes neither its live lease last published nor an earlier epoch did. |
| `SurfaceLaws.PendingFoundExactly` | src/claim-publication.js:716-758 | A pending publication is found exactly where a live lease last published other bytes and an earlier epoch these. |
| `SurfaceLaws.StaleFoundExactly` | src/claim-publication.js:713-780 | A stale write is found exactly on a drifted coordinated item with no pending publication. |
| `SurfaceLaws.DriftScopeExactly` | src/reconciliation-classifier.js:28-117 | A drifted item refuses only writes to itself exactly when its bytes and HEAD's are vouched for and others may still bring its ruling; otherwise every write. |
| `SurfaceLaws.DriftRemedyExactly` | src/reconciliation-classifier.js:28-117 | Which remedy each drift gets, said of the bytes, the owner evidence and the recorded writer. |
| `SurfaceLaws.EvidenceExactly` | src/reconciliation-classifier.js:28-117 | Owner evidence is gathered exactly for vouched-for bytes that are not the ruling, and elsewhere would decide nothing. |
| `SurfaceLaws.UnsafeExactly` | src/claim-publication.js:485-493 | What is unknown, pending or regressed anywhere refuses every write; a targeted stale write refuses its item and the caller without a target; a resolved intent refuses nothing. |
| `Gate.ItemGate` | src/reconciliation-classifier.js:28-117 | What the classifier and the scopes guarantee about one item when its finding, if any, blocks nothing. |
| `Gate.GateClosesLegacy` | src/claim-publication.js:506-563 | A reconciliation that does not block leaves no pending legacy attempt whose outcome the disk does not settle. |
| `Gate.CleanSurfacesPass` | src/claim-publication.js:690-823 | The gate is not vacuous: with nothing pending and clean surfaces there are no findings and every target passes. |
| `Gate.ReconcileOpensNothing` | src/claim-publication.js:494-688 | A reconciliation appends one clock entry and then only terminals, finals and finalizations. |
| `Gate.ReconcileClosesPublish` | src/claim-publication.js:567-634 | After a reconciliation every publish intent has a final for its operation and item. |
| `Gate.ReconcileLeavesThirdRevisions` | src/claim-publication.js:517-563 | A legacy intent still open after a reconciliation is one whose item holds neither its expected nor its candidate revision. |
| `Gate.ReconcileIsFixpoint` | src/claim-publication.js:494-688 | Reconciling again on unchanged disk and HEAD, at any time and for any target, appends exactly one clock entry and leaves the projected log unchanged. |
| `Gate.FinalizationTailShape` | src/claim-publication.js:651-688 | Every finalization names a committed final whose revision HEAD carries. |
| `Gate.UnknownFinalBlocks` | src/claim-publication.js:596-649 | An unknown outcome recovery records is a finding that blocks every target of that reconciliation. |
| `Gate.PublishFindingsLastOnce` | src/claim-publication.js:567-649 | On unchanged disk and HEAD the next reconciliation has no finding about any recovered publication. |
| `Gate.ReconciledStateIsReplay` | src/claim-publication.js:494-505 | The claim state a reconciliation hands on is what the journal it leaves replays to. |
| `RunGuarantees.FinalizedOnce` | src/claim-publication.js:668-688 | In every reachable journal each operation is finalized at most once per item. |
| `RunGuarantees.FinalizationsFollowHead` | src/claim-publication.js:669-688 | Every finalization in a reachable journal was appended by an action that saw its committed revision at HEAD. |
| `Protocol.CrashKeepsPrefix` | src/claim-journal.js:58-74 | A crash after any effect of a command keeps a prefix of the journal the whole command would have written, and never shortens what was there. |
| `Protocol.EveryCrashPoint` | src/claim-journal.js:58-74 | Every crash point of every command is some action: stopped after n effects, exactly the first n are performed. |
| `Lawfulness.OneIntentOneFinal` | src/claim-publication.js:181-191 | In a lawful journal an operation has at most one intent and at most one final, and no intent after its final. |
| `Lawfulness.FinalMatchesIntent` | src/claim-publication.js:1353-1366 | A final for an operation comes after its intent, carries the same request and names the same item. |
| `Lawfulness.OneTerminal` | src/claim-publication.js:506-516 | A legacy attempt has one intent and at most one terminal. |
| `Lawfulness.ReconcileIsLawful` | src/claim-publication.js:451-688 | Reconciliation keeps a journal lawful, whatever is on disk and at HEAD. |
| `Lawfulness.SafeReconcileClosesAllLegacy` | src/claim-publication.js:506-563 | A reconciliation that does not block leaves no legacy intent open. |
| `Fencing.StepIsLawful` | src/claim-publication.js:168-344 | Every command, claim, adoption, legacy mutation or claimed publication, keeps the journal lawful. |
| `Fencing.ReachableIsLawful` | src/claim-coordinator.js:50-204 | Every journal a run can reach is lawful: any commands, any crash points, any edits of items outside the protocol, any movement of HEAD. |
| `Fencing.IntentsAreFenced` | src/claim-publication.js:261-326 | In every run, replaying the journal before a publish intent gives an unexpired active claim with exactly that owner and epoch. |
| `FenceLaws.FenceAcceptsExactly` | src/claim-publication.js:1414-1422 | The fence is accepted exactly when it is the live lease of the reconciled journal, and refused otherwise for the first field that differs. |
| `FenceLaws.HeldFencePublishes` | src/claim-publication.js:261-339 | A publication that reaches its fence with a fence that holds journals its intent, the applied write and a final with the outcome its report calls for. |
| `FenceLaws.LostFenceIsRefused` | src/claim-publication.js:261-275 | One whose fence does not hold journals one final that names the first difference, and writes nothing. |
| `FenceLaws.PublishOpensExactly` | src/claim-publication.js:261-326 | So an intent is opened exactly when the fence holds. |
| `FenceLaws.StoppedBeforeFence` | src/claim-publication.js:168-260 | A publication stopped before its fence journals nothing of its own; answered or in another namespace, it does not even reconcile. |
| `FenceLaws.LegacyAdmitsExactly` | src/claim-coordinator.js:79-94 | The legacy fence lets the write engine run exactly when nothing blocks, no lease on the item is live, and a create sees a never-claimed item and every coordinated item on disk. |
| `FenceLaws.LegacyJournalsExactly` | src/claim-coordinator.js:96-204 | What it then journals: an intent naming the bytes on disk and the authorized candidate, and the terminal the report calls for. |
| `FenceLaws.LegacyIntentsAreFree` | src/claim-coordinator.js:86-94 | In every run, replaying before a legacy intent gives no live lease on its item, and before a create no claim of it ever. |
| `FenceLaws.CreatesSeeEveryNumber` | src/claim-coordinator.js:73-83 | In every run a create was journaled by an action whose tree held every item its journal coordinates. |
| `FenceLaws.AdoptsExactly` | src/claim-publication.js:1254-1333 | An adoption is journaled exactly when `from` is the ruling, `to` another revision both on disk and at HEAD, no lease is live and the ledger is valid. |
| `FenceLaws.ClaimsJournalExactly` | src/cli.js:1848-1893 | A claim command is journaled whatever it decides; a barrier refuses all but a release. |
| `Fencing.NoClaimDuringPublication` | src/cli.js:1848-1893 | In every run no claim command is journaled between a publish intent and its final. |
| `Fencing.NoClaimWhileOpen` | src/cli.js:1848-1893 | A claim journaled after a publish intent comes after that intent's final. |
| `Fencing.HigherEpochIsUnreachable` | src/claim-publication.js:567-595 | Whenever a publish intent is open, the replayed epoch of its item is its fence's epoch, so recovery's higher-epoch case is never taken. |
| `Fencing.EpochsNeverDecrease` | src/claim-publication.js:261-339 | In every run the committed publications of an item carry nondecreasing epochs. |
| `Fencing.IntentsInFinalOrder` | src/claim-publication.js:261-339 | Publications never overlap: their finals come in the order of their intents. |
| `Fencing.FinalAnswers` | src/claim-publication.js:181-191 | A lawful journal answers any retry of an operation from its one final: the stored outcome, or a digest conflict. |
| `Fencing.FinalAnswersForever` | src/claim-publication.js:181-256 | Once a final exists, in every later world of the run every retry gets that same answer and performs no effect at all. |
| `Fencing.WrittenAtMostOnce` | src/claim-publication.js:324-334 | In every run the item write of an operation is attempted at most once, whatever the write engine then does; the journal holds at most one intent for it, and no action changes the item on its behalf without attempting it. |
| `Recovery.ReachableIsSound` | src/claim-coordinator.js:96-204 | In one working tree where edits and number repairs touch only items the journal does not rule on, and no unknown report overrules a ruling, every world a run passes through is sound: each item with a ruling holds it, or holds the candidate of the one open intent. |
| `Recovery.ThroughStep` | src/claim-coordinator.js:96-204 | Every command, and every such edit and repair, keeps the world sound after each of its effects, so also wherever it dies. |
| `Recovery.OpenIsAlone` | src/claim-publication.js:475-481 | At most one intent, legacy or publish, is ever open. |
| `Recovery.RecoverySettlesEverything` | src/claim-publication.js:506-634 | After any such run, crashed anywhere, the next reconciliation leaves nothing open and every item with a ruling at its latest authorized revision. |
| `Recovery.LegacyClosedExactly` | src/claim-publication.js:517-546 | An open legacy mutation is closed by exactly one terminal: a commit exactly when the disk holds the candidate, otherwise an abort. |
| `Recovery.PublishClosedExactly` | src/claim-publication.js:567-620 | An open publication is closed by exactly one final: committed exactly when the disk holds the candidate, unknown exactly when the disk holds a third revision no publication committed, otherwise a revision conflict. |
| `RecoveryLimits.StaleCrashIsRecordedUnknown` | src/claim-publication.js:567-634 | A reachable crash closed as unknown rather than conflict: a request drawn up against a stale revision dies between its intent and its compare-and-swap. The reconciliation that records it blocks every target; the next one finds nothing and blocks none. |
| `RecoveryLimits.UnknownReportLosesAuthority` | src/claim-publication.js:1424-1441 | When a publication passes the gate and its fence and the write engine applies it but cannot tell, the item keeps its ruling on disk exactly when it had none or the candidate already was it; every other item keeps its own. |
| `RecoveryLimits.RulingIsLost` | src/claim-publication.js:326-339 | A lawful run from an empty journal in which an item that holds its ruling loses it that way. |
| `Coordinator.Store.constructor` | src/claim-journal.js:201-208 | A store starts with no journal and no durable effect. |
| `Coordinator.Store.AppendClaimEntry` | src/claim-journal.js:58-74 | The one way the journal changes: one entry at its end, as one durable effect. |
| `Coordinator.Store.WriteItem` | src/claim-publication.js:328-334 | The item write is an atomic compare-and-swap: the candidate, or nothing. |
| `Coordinator.Store.ResolvePendingLegacy` | src/claim-publication.js:506-565 | The loop over pending legacy attempts appends exactly the terminals the disk decides and reports the rest. |
| `Coordinator.Store.ResolvePendingPublish` | src/claim-publication.js:567-649 | The loop over pending publications appends one final each, judged against the journal as the ones before it left it. |
| `Coordinator.Store.RecordFinalizations` | src/claim-publication.js:659-688 | The scan that appends to the list it walks records exactly the committed finals HEAD carries that were not recorded. |
| `Coordinator.Store.JudgeCoordinated` | src/claim-publication.js:690-780 | The loop over coordinated items finds exactly what the surfaces show. |
| `Coordinator.Store.JudgeClaims` | src/claim-publication.js:783-825 | The loop over uncoordinated claims finds exactly the missing publications of live claims. |
| `Coordinator.Store.RuleOnFindings` | src/claim-publication.js:485-493 | The write is refused exactly when some finding blocks the target. |
| `Coordinator.Store.AppendPhases` | src/claim-publication.js:493-688 | The four appending phases, in place, leave the journal the reconciliation function gives. |
| `Coordinator.Store.ReconcileClaimJournal` | src/claim-publication.js:451-868 | Reconciliation in place equals the reconciliation function: entries, findings, refusal, state and missing items. |
| `Coordinator.Store.PublishClaimed` | src/claim-publication.js:168-344 | publish-claimed performs exactly its effects and whatever it answers is what every later retry is told; it refuses on a barrier or candidate exactly then, and at the fence opens an intent exactly when the fence holds, otherwise answering with the first difference. |
| `Coordinator.Store.PublishFenced` | src/claim-publication.js:261-339 | Fence check, intent, compare-and-swap and terminal; an outcome is lost only with the intent left open. |
| `Coordinator.Store.PersistTerminal` | src/claim-publication.js:1353-1366 | The terminal of an operation that has none becomes its one answer. |
| `Coordinator.Store.WithLegacyMutationFence` | src/claim-coordinator.js:50-218 | The legacy fence refuses exactly on a barrier, a live lease, or a create that is claimed or cannot see a coordinated item; a reported commit is on disk and authorized, a reported abort or refusal left item and ruling as they were. |
| `Coordinator.Store.MutateAdmitted` | src/claim-coordinator.js:96-204 | Intent, item write and terminal of an admitted mutation. |
| `Coordinator.Store.AppendMutationTerminal` | src/claim-coordinator.js:164-204 | The terminal a report calls for, and the ruling it leaves. |
| `Coordinator.Store.RunClaimCommand` | src/cli.js:1828-1909 | A claim command refuses only on a barrier and never a release; otherwise its verdict is that of the last entry of the journal it leaves. |
| `Coordinator.Store.JournalClaim` | src/cli.js:1882-1893 | The operation runs on the reconciled state and is journaled whatever its verdict. |
| `Coordinator.Store.AdoptItemRevision` | src/claim-publication.js:1149-1333 | An adoption succeeds exactly when it is allowed, and its revision becomes the latest authorized one. |
| `Coordinator.PriorExists` | src/claim-publication.js:181-191 | The journal answers a request exactly when it holds a final for the operation. |
| `Hydration.IndexLog` | src/claim-publication.js:391-397 | Numbering the log succeeds exactly when no sequence number is repeated. |
| `Hydration.ScanLog` | src/claim-publication.js:404-409 | The highest number and the fallback time of the log. |
| `Hydration.HydrateClaimJournal` | src/claim-publication.js:370-442 | Hydration in place equals the hydration function, and changes nothing when it fails. |
| `Hydration.AppendMissing` | src/claim-publication.js:410-441 | The missing entries are appended one by one, stand-ins where the log has none. |
| `Hydration.HydrationRebuilds` | src/claim-publication.js:404-441 | Hydrating a prefix of the journal behind the log succeeds, keeps that prefix, is contiguous, and agrees with the journal at every logged position. |
| `Hydration.HydrationKeepsLog` | src/claim-journal.js:107-130 | The rebuilt journal projects back to the very log it was built from, numbers included. |
| `Hydration.HydrationIsIdempotent` | src/claim-publication.js:404-405 | Hydrating twice is hydrating once. |
| `Hydration.HydrationIsIdentity` | src/claim-publication.js:404-405 | A journal that extends the one whose log was committed is left alone. |
| `Hydration.DivergenceIsRefused` | src/claim-publication.js:398-403 | For any local journal at all, hydration from a journal's own log fails exactly when they disagree at a logged position, and with that error. |
| `Hydration.HydrationKeepsRulings` | src/claim-publication.js:872-886 | The rebuilt journal authorizes the same revision of every item. |
| `Hydration.ProjectionKeepsRulings` | src/claim-journal.js:28-36 | The log alone names the authorized revision of every item. |
| `Hydration.FloorIsLatestTick` | src/claim-journal.js:94-105 | The replayed floor is the latest of all clock and claim times, in whatever order they came. |
| `Hydration.HydrationKeepsClaimsExactly` | src/claim-publication.js:404-441 | For every journal and every prefix of it, the rebuilt journal has the claim records of the original at each of its positions exactly when every logged claim settles alike under the rebuilt floor; and then it replays to its records. |
| `Hydration.SettlesAlikeExactly` | src/claim-operations.js:75-138 | A request leaves a record in one state at two instants exactly when they are one, or it is refused at both, or released at both, or renewed at one to the very expiry it had. |
| `Hydration.RebuiltFloorIs` | src/claim-publication.js:406-421 | The floor rebuilt before a position: the local journal's, raised by the fallback time wherever the log leaves an entry out and by the claims it carries. |
| `Hydration.HydrationKeepsClaims` | src/claim-publication.js:406-421 | In particular the records are kept when the journal's times never go backward. |
| `HydrationLimits.BackwardTimeMovesLease` | src/claim-publication.js:406-421 | The journal of a run whose clock went backward: its claim does not settle alike, and the rebuilt lease differs. |
| `HydrationLimits.RecordsCanMeetAgain` | src/claim-publication.js:406-421 | Why agreement is stated at every position: a run whose rebuilt records part and end up equal. |
| `Hydration.HydratedFloor` | src/claim-publication.js:406-421 | The rebuilt clock floor is no higher than the journal's exactly when no stand-in was needed or the fallback time is no higher. |
| `HydrationLimits.RepairStampRaisesFloor` | src/claim-publication.js:406-409 | The forward journal of a run whose first stamp is a number repair's wall clock: its rebuilt floor is higher. |
| `HydrationRuns.ReachableIsStamped` | src/claim-coordinator.js:96-141 | In every reachable journal a legacy stamp is the floor an earlier clock entry recorded. |
| `HydrationRuns.HydrationRaisesNoFloor` | src/claim-publication.js:406-421 | For every reachable journal and every prefix of it, hydration raises no floor unless the log's first stamp is a number repair's or there is none. |
| `Prospective.CheckNumbers` | src/claim-prospective.js:14-29 | The log is unambiguous exactly when every line is well numbered and each number has one content; a reported number really has two. |
| `Prospective.CollectRulings` | src/claim-prospective.js:31-46 | Each item's rulings in sequence order. |
| `Prospective.HoldItems` | src/claim-prospective.js:48-70 | The first item, in tree order, that is not at its last ruling is the one refused. |
| `Prospective.CheckProspectiveLedger` | src/claim-prospective.js:13-71 | The check in place equals the check as a function, up to which offending number it names. |
| `Prospective.DecisiveRuling` | src/claim-prospective.js:31-54 | The last ruling of the sorted log is the highest-numbered one. |
| `Prospective.AcceptsExactly` | src/claim-prospective.js:13-71 | The merge is accepted exactly when each number has one content and every item with history has the bytes of its highest-numbered ruling. |
| `Prospective.RefusalNames` | src/claim-prospective.js:48-70 | A refusal names the first item in tree order that is not at its ruling, what it holds, what it should, and the ascending numbers of the log's rulings on it. |
| `Prospective.VerdictDependsOnSet` | src/claim-prospective.js:13-71 | Reordering or repeating log lines changes neither the decision, the error, the item, the revisions, nor which sequences decided. |
| `Prospective.RepeatedLineRepeatsNumber` | src/claim-prospective.js:64-64 | What does change: a repeated line repeats its number in the list of decisive sequences. |
| `Prospective.NamesLatestAuthorized` | src/claim-prospective.js:31-54 | On a contiguous journal the check names, for every item, the revision live reconciliation authorizes. |
| `Prospective.AgreesWithLive` | src/claim-prospective.js:48-70 | Before or after log projection, a journal's log is accepted exactly when every item it rules on is at its authorized revision. |
| `ClaimLock.MovesExactly` | src/claim-store.js:133-196 | What each file operation changes and where it leads: reads change no file, a link creates its file exactly when it is absent, a removal removes whichever is there. |
| `ClaimLock.ReachableInv` | src/claim-store.js:133-196 | The invariant of every interleaving: who owns the lock, who owns the recovery file, and what a stale judgement rests on. |
| `ClaimLock.MutualExclusion` | src/claim-store.js:133-196 | Over all interleavings of any number of processes, deaths inside the callback included, at most one living process is inside the callback. |
| `ClaimLock.NeverStolen` | src/claim-store.js:157-194 | A living owner's lock is removed only by that owner, on its way out. |
| `ClaimLock.ReleaseRemovesOwn` | src/claim-store.js:155-160 | A living process leaving the callback finds its own lock and removes it. |
| `ClaimLock.StaleLockIsRecovered` | src/claim-store.js:166-196 | With no recovery in progress a process running alone gets past a dead owner's lock and enters. |
| `ClaimLock.LiveLockRefuses` | src/claim-store.js:188-191 | A contender never gets past a living owner: it fails and leaves the lock in place. |
| `ClaimLock.DeathWhileRecoveringBreaksExclusion` | src/claim-store.js:157-196 | After a run without a death while recovering, the next event leaves exclusion certain for good exactly when it is not such a death: after any one of them, two living processes can be inside at once without another. |
| `ClaimLock.DeadMarkerIsFatal` | src/claim-store.js:168-176 | Wherever a dead process's recovery file is in place, exclusion can be violated. |
| `ClaimLock.LoneRemovalRestoresExclusion` | src/claim-store.js:168-176 | Exclusion is certain again once one process finds the dead recovery file and removes it before any other looks. |
| `NumberRepair.ReplaceItem` | src/ledger-repair.js:1037-1052 | One item is replaced, and nothing else. |
| `NumberRepair.ReplaceStaged` | src/ledger-repair.js:890-910 | Recovery replaces, skips and stops item by item exactly as the function says. |
| `NumberRepair.RecoverNumberRepair` | src/ledger-repair.js:859-934 | Recovery ends with a final exactly when no item stopped it and the ledger is valid. |
| `NumberRepair.PublishCandidates` | src/ledger-repair.js:485-490 | The publication loop writes every candidate in order. |
| `NumberRepair.PublishNumberRepair` | src/ledger-repair.js:468-533 | Intent, every replacement, then the final exactly when the reread ledger is valid and every named item holds its candidate. |
| `NumberRepair.RunNumberRepair` | src/ledger-repair.js:421-439 | The locked call performs exactly its effects (answer, recover, or publish) and reports success exactly when the journal then holds the repair's final. |
| `NumberRepair.CrashedCallsStayInPhase` | src/ledger-repair.js:421-537 | However many calls crashed, and wherever, the repair is not started, half published without a final, or finished with exactly one. |
| `NumberRepair.RecoveryReachesTarget` | src/ledger-repair.js:890-910 | From any half-published disk recovery meets no obstacle and leaves every named item at its candidate, every other item untouched. |
| `NumberRepair.RepairFinishesOnce` | src/ledger-repair.js:421-537 | One call that is not cut short, after any crashed ones, be it the first or a recovery, completes the repair with exactly one final and the named items at their candidates; every later call changes nothing. |
| `NumberRepair.ThirdRevisionIsNeverFinal` | src/ledger-repair.js:901-908 | While a named item holds a third revision no call ever appends a final or touches those bytes. |
| `NumberRepair.FinalAcceptedOnce` | src/claim-journal.js:462-482 | A final written for its intent is accepted by the journal reader exactly when none was before it. |
| `NumberRepair.CallKeepsJournalValid` | src/ledger-repair.js:421-439 | Calls that run one after another, crashed or not, keep the journal readable. |
| `NumberRepair.UnlockedReadIsSafe` | src/ledger-repair.js:819-857 | A recovery decided before the lock was taken leaves a readable journal exactly when no other call appended the final in between or recovery had nothing to append. |
| `NumberRepair.ConcurrentRecoveryBreaksJournal` | src/ledger-repair.js:819-857 | Two recoveries that both read the open intent before either took the lock write a second final, and the journal no longer reads back. |
| `NumberRepair.CallIsRepairStep` | src/ledger-repair.js:421-537 | A repair call is a step of the protocol, so the results over whole runs hold with repairs in them. |
| `RepairProposal.GroupByNumber` | src/ledger-repair.js:338-345 | Items grouped by number, in ledger order. |
| `RepairProposal.ExpectedChangedIds` | src/ledger-repair.js:337-351 | The IDs after the first of each group are exactly the holders of a duplicated number that do not have its least ID. |
| `RepairProposal.FindHighest` | src/ledger-repair.js:626-631 | The highest number in the ledger. |
| `RepairProposal.NumberRepairProposal` | src/ledger-repair.js:592-643 | The proposal is offered exactly for a ledger with distinct IDs and safe positive numbers that two items share, and moves each movable item to the next number above the highest. |
| `RepairProposal.SuggestedInOrder` | src/ledger-repair.js:618-643 | The proposal moves items in the order of their IDs. |
| `RepairProposal.CheckChanges` | src/ledger-repair.js:1111-1158 | A mapping is well formed exactly when it is nonempty, its numbers are positive safe integers, and no item or replacement repeats. |
| `RepairProposal.CheckWitnesses` | src/ledger-repair.js:316-336 | Every change is accepted exactly when some item has its ID, revision and number; a conflict names the first that has none. |
| `RepairProposal.CheckCollisions` | src/ledger-repair.js:368-402 | No replacement is held, as the map sees it, by its own item or by one that does not move. |
| `RepairProposal.CheckNumberRepair` | src/ledger-repair.js:283-402 | The whole check sequence accepts exactly the requests that may repair this ledger, and says which of the first checks failed. |
| `RepairProposal.AcceptedExactly` | src/ledger-repair.js:283-402 | Said of the ledger alone: made of this very ledger, each change names an item by ID, revision and number; exactly the items that share a number with a lesser ID change, once each, to safe, different numbers no staying item has. |
| `RepairProposal.ProposalSatisfiesRepair` | src/ledger-repair.js:607-643 | The suggested mapping, applied verbatim to the unchanged ledger, passes every check exactly when its highest number is still a safe integer. |
| `RepairProposal.CrowdedProposalIsRefused` | src/ledger-repair.js:638-643 | A ledger near the top of the safe integers whose own proposal is refused. |
| `RepairProposal.SuccessorExactly` | src/ledger-repair.js:1013-1033 | For a complete mapping the successor's numbers are distinct exactly when no replacement is the number of an item that stays. |
| `RepairProposal.CollisionCheckIsNotEnough` | src/ledger-repair.js:369-387 | A mapping the collision check passes although a replacement is the number of an item that stays; the successor validation refuses it. |
| `RepairProposal.AcceptedRepairKeepsStayers` | src/ledger-repair.js:283-402 | An accepted repair ends with distinct numbers, keeps the least-ID holder of each, moves every other holder and changes no other item's number. |
| `Readiness.WalkUp` | src/ready.js:78-100 | The walk up terminates on every ledger and stops with what must be appended to the path. |
| `Readiness.AncestorReasons` | src/ready.js:70-111 | The memoised walk answers as the plain walk on a chain that ends and never with nothing on one that does not, and keeps the cache sound. |
| `Readiness.CycleNeverEnds` | src/ready.js:88-91 | A parent chain that comes back to itself ends within no number of steps. |
| `Readiness.ProjectItem` | src/ready.js:9-33 | One item's reasons: its own, its dependencies', its ancestors'. |
| `Readiness.ProjectReadiness` | src/ready.js:3-37 | One pass with one shared cache projects every item, the last listing of an ID deciding. |
| `Readiness.MemoisedIsNaive` | src/ready.js:70-111 | On every chain that ends the projected reasons are the plain walk's, whatever the item order. |
| `Readiness.EmptyMeansChainReady` | src/ready.js:70-111 | On every ledger, cycles and missing parents included, a chain gives no reason exactly when it is finite, present and in backlog. |
| `Readiness.ReadyMeans` | src/ready.js:9-33 | Ready exactly when the own-item checks pass, every dependency is done and the whole parent chain is finite, present and in backlog. |
| `Readiness.ProjectedExactly` | src/ready.js:9-33 | Which reasons an item gets, said of the item and the ledger, and that it is ineligible exactly when one of its own three checks fails. |
| `Readiness.DependencyReasonsAre` | src/ready.js:21-29 | A dependency gives its reason exactly when it is not done in the ledger, on schema 1 always, as often as it is listed. |
| `Readiness.SelectReady` | src/ready.js:39-68 | With distinct IDs the selection lists exactly the ready items: none without a priority ahead of one with, priorities not falling, among equals dates not falling, among those IDs rising. |
| `Readiness.SelectionIgnoresOrder` | src/ready.js:39-68 | With distinct IDs the selection does not depend on the input order. |
| `ReportImpact.LinkRetained` | src/report-impact.js:13-32 | The retained graph has an edge exactly where some listing of a retained item names a retained dependency or parent. |
| `ReportImpact.Traversal.Downstream` | src/report-impact.js:34-54 | The memoised reach holds only what the item reaches, and on an acyclic graph all of it. |
| `ReportImpact.Traversal.CollectNexts` | src/report-impact.js:42-50 | The loop over direct dependents collects their reach, with the stack restored. |
| `ReportImpact.AffectedIds` | src/report-impact.js:57-77 | The work queue finds exactly the items reachable over dependents and children, the candidate excepted. |
| `ReportImpact.VisitNext` | src/report-impact.js:60-74 | One visit keeps the search closed behind the queue. |
| `ReportImpact.ReadinessIfDone` | src/report-impact.js:79-88 | The counterfactual projects the ledger with only the candidate's effective listing done. |
| `ReportImpact.HitIsDirectDependent` | src/report-impact.js:93-98 | An item the candidate makes ready is a direct dependent whose only baseline reasons are the candidate. |
| `ReportImpact.BoundedIsWhole` | src/report-impact.js:93-98 | On every ledger the affected items contain the whole difference of the two projections. |
| `ReportImpact.ReadyIfDone` | src/report-impact.js:93-98 | The bounded scan finds exactly the retained items that are not ready and would be were the candidate done, and equals the difference of the full projections. |
| `ReportImpact.ImpactOf` | src/report-impact.js:91-99 | What the report says of one retained item. |
| `ReportImpact.BuildReportImpact` | src/report-impact.js:8-102 | The whole report satisfies both for every retained item. |
| `Lifecycle.ActionsFollowEdges` | src/lifecycle.js:18-50 | Every edge with a decision action is allowed, and the only allowed edges without one move a task between backlog and in progress. |
| `Lifecycle.MinimumDateIsExact` | src/lifecycle.js:62-73 | The minimum date is exactly the bound the two date checks enforce. |
| `Lifecycle.TransitionPreconditions` | src/lifecycle.js:66-96 | The issues found, in order. |
| `Lifecycle.SortedIdsIs` | src/lifecycle.js:75-92 | The related IDs an issue names are in order, each as often as it was found. |
| `Lifecycle.TransitionBlockers` | src/lifecycle.js:98-124 | Child-disposition is listed for exactly the open children of a dropped epic, dependent-disposition and dependent-cleanup for exactly the dependents left behind, in order and, with distinct IDs, once each. |
| `Lifecycle.BuildTransition` | src/mutation.js:1380-1413 | Blockers are reported exactly when something blocks, issues exactly when nothing does and some issue is met; accepted exactly when every clause of the lifecycle holds, changing status and date as requested. |
| `LifecycleLaws.EdgesExactly` | src/lifecycle.js:18-50 | The edges are those of the table; every edge but a task's moves in and out of progress takes a decision, and the action is the one its target or origin names. |
| `LifecycleLaws.IsDoneExactly` | src/lifecycle.js:126-128 | A dependency counts as done exactly when the first item listed under its ID is. |
| `LifecycleLaws.LiveDependenciesAre` | src/lifecycle.js:77-80 | The live dependencies are those not done, on schema 1 all, each as often as listed. |
| `LifecycleLaws.OpenChildrenAre` | src/lifecycle.js:87-90 | The nonterminal children are listed in ledger order, once for each listing. |
| `LifecycleLaws.IssuesExactly` | src/lifecycle.js:66-96 | Which issues a request meets and what they name, said of the request and the ledger. |
| `LifecycleLaws.StepExactly` | src/mutation.js:1380-1413 | When a step moves an item: exactly when the request names it, is not dated before it, follows an edge, brings a decision exactly if due, waits for nothing and leaves no dependent and, of an epic dropped, no triage, backlog or in-progress child behind. |
| `LifecycleLaws.StepKeepsQuiet` | src/validate.js:1111-1130 | The lifecycle checks keep every dropped epic without open children, as the validator demands, exactly in the steps that do not take a deferred or archived child of one back to the backlog. |
| `LifecycleLaws.KilledEpicGetsOpenChild` | src/validate.js:1111-1130 | A run of transitions the lifecycle checks accept after which a killed epic has a child in the backlog: what is left to the validator. |
| `Lifecycle.StepAt` | src/mutation.js:1434-1469 | A transition changes only status and update date, along an allowed edge, never out of done or killed and never backward in time. |
| `Lifecycle.TerminalAbsorbs` | src/lifecycle.js:38-50 | Over any run of requests done and killed are absorbing and no update date falls. |
| `Lifecycle.RunsKeepFacts` | src/lifecycle.js:66-124 | Every run keeps three facts: a done schema 2 item has only done dependencies, a done epic only done or killed children, and nothing else depends on a killed or archived item. |
| `JsonNumbers.SpellingIsInjective` | src/claim-publication.js:1554-1554 | Every finite number, written plainly, with a point, as a fraction or with an exponent, has its own spelling; minus zero is zero. |
| `JsonNumbers.MagnitudeReads` | src/claim-publication.js:1554-1554 | Every spelling reads back, by place value, to the digits and point it was made of, with an exponent exactly outside 10^-6 to 10^21 and the point where it belongs. |
| `CanonicalJson.TokenExactly` | src/claim-publication.js:1552-1554 | Which code units are escaped and how: seven by a letter of their own, other controls and lone surrogates by four lower-case hexadecimal digits, nothing else. |
| `CanonicalJson.BodyReads` | src/claim-publication.js:1552-1554 | Quoted text read by the JSON grammar gives the text back and ends where its closing quote is. |
| `CanonicalJson.PrintReads` | src/claim-publication.js:1549-1555 | A printed value read by the JSON grammar gives the value back and stops where it ended. |
| `CanonicalJson.CanonicalReads` | src/claim-publication.js:1549-1555 | A canonical text is JSON: it reads, with nothing left over, as a value that is the original up to key order and has its keys in order at every depth. |
| `CanonicalJson.LessExactly` | src/claim-publication.js:1552-1552 | Keys are compared at the first code unit where they differ. |
| `CanonicalJson.PrintIsInjective` | src/claim-publication.js:1549-1555 | A printed value, followed by a delimiter, names one value. |
| `CanonicalJson.NormalMeansSame` | src/claim-publication.js:1551-1553 | Sorting keys identifies exactly the values that are equal up to key order. |
| `CanonicalJson.CanonicalMeansSame` | src/claim-publication.js:1549-1555 | Two values have one canonical text exactly when they are the same JSON value up to object key order. |
| `CanonicalJson.DigestMeansSame` | src/claim-publication.js:1349-1351 | With a collision-free hash two requests share an operation digest exactly when they are the same JSON value. |
| `BlobBatch.ChunkBySize` | src/git-reconciliation.js:202-217 | Chunks concatenate back to the input; each is nonempty, within the limit unless it is one blob, and as long as it could be. |
| `BlobBatch.DecodeBlobBatch` | src/git-reconciliation.js:269-291 | The decoding loop equals decoding as a function, errors included. |
| `BlobBatch.RecordRoundTrip` | src/git-reconciliation.js:273-288 | A framed record is read back as its own content wherever it starts. |
| `BlobBatch.BatchRoundTrip` | src/git-reconciliation.js:269-291 | Decoding what Git framed returns every content exactly, newlines in it included. |
| `BlobBatch.OverheadIsExact` | src/git-reconciliation.js:11-15 | The 64-byte allowance covers one record exactly when object ID and size together take at most 56 characters. |
| `BlobBatch.AllowanceHolds` | src/git-reconciliation.js:219-236 | With 40-character object IDs and safe sizes the output bound never refuses what Git writes. |
| `BlobBatch.LongIdsExceedAllowance` | src/git-reconciliation.js:219-236 | With 64-character object IDs it refuses every batch. |

## Left out

- Recovery.ReachableIsSound: excludes edits and number repairs of items the journal rules on or has an open legacy attempt on (a repair's final authorizes nothing, so a coordinated item it renumbers leaves its ruling), and publications that overrule a ruling under an unknown report, where soundness is lost (RecoveryLimits.UnknownReportLosesAuthority).
- ClaimLock.MutualExclusion: takes reading an owner file and probing its process as one step and process IDs as never reused, and assumes no death while the recovery file is held; without the last it is false.
- Hydration.HydrationKeepsClaims: a sufficient condition only; the exact one is Hydration.HydrationKeepsClaimsExactly, stated for every position, since records that part may meet again (HydrationLimits.RecordsCanMeetAgain).
- Hydration.DivergenceIsRefused: a log line with no sequence number at all, and lines that are not JSON objects, are not modelled.
- Prospective.VerdictDependsOnSet: says nothing of which offending number an ambiguous log reports or how often a decisive sequence is listed; both do depend on order and repetition.
- Readiness.SelectReady: says nothing of a ledger with repeated IDs, which validation refuses; priorities are integers.
- ReportImpact.Traversal.Downstream: on cyclic graphs only that nothing unreachable is collected.
- RepairProposal.CheckNumberRepair: judges numbers; rewriting the number line of an item's text and reparsing it are not modelled, and the successor is judged by its numbers alone.
- Lifecycle.StepAt: status and update date only; completion, kill, archive and deferral stamps and decision records are not modelled, nor is the validation of the whole successor ledger, which only refuses more.
- JsonNumbers.SpellingIsInjective: takes a number as the shortest digits that round to it; finding those digits is not modelled.
- RepairProposal.NumberRepairProposal: validation errors are duplicate numbers or others, and item paths are not modelled.
- NumberRepair.RunNumberRepair: the staging directory is a verdict of the call, not state; that a call which died between staging and its intent makes the next ones fail is one of the verdicts they may get.
- BlobBatch.DecodeBlobBatch: a size field is a run of decimal digits; other texts a JavaScript number conversion accepts are not modelled, and Git writes none.
- Coordinator.Store.PublishClaimed: a failure to write the derived log after the final is durable makes the source answer unknown; here writing derived files never fails.
- Hydration inside whole runs: the run results start from an empty local journal and never hydrate; with a committed log of the local journal's own prefix hydration is the identity (HydrationIsIdentity).
- Cross-worktree recovery and claim-sync imports: recovery judges an intent against the reconciling checkout's own bytes.
- Entries written before attempt identifiers existed: every legacy entry here carries one.
- Journal capacity in bytes and entries: an append refused for capacity is one that did not happen, which the crash model covers; only the reserve computed before an intent is not modelled.
- Namespaces: one namespace is fixed, except where a request or a merged log line names another.
- Findings as text: order, messages, remediation sentences and evidence details; findings are a set of what they assert.
- The shape checks of requests and entries, the EPOCH pattern among them.
- claim-read, list pagination, minting and facet counts: not modelled; no result here depends on them.
- File and process I/O: fsync, directory sync, no-follow opens, temporary files, spawning Git.
- Adapters, conformance runners, report HTML, YAML and Markdown parsing, the mutation engine's and validator's internals, git-autocommit and repair recovery tokens.
- SHA-256 itself: revisions and snapshots are opaque, and the digest result assumes a collision-free hash.
