# Verification of cc-switch-server

cc-switch-server is a headless token server. This project models its state machines in Dafny and proves what they
keep over every run.

* **Image capability store** (`ImageFiles`, `ImageRuns`, `ImageServing`, `ImageVerifier`, `ImageStore`). A bounded,
  expiring store of image pairs. The directory is two maps; each file write or delete is one step, and an operation may
  stop after any step. The class performs exactly the scripts about which the run theorems are proved.
* **Provider health** (`HealthCycles`, `HealthSlots`, `HealthRecords`, `HealthSnapshots`, `HealthRecovery`,
  `HealthBatches`, `HealthReplay`, `HealthRetry`, `HealthProjection`, `HealthWholeRuns`). The coalescing of health
  cycles over any number of callers, and the replay protocol by which Router batches and the local scheduler share one
  probe result per cycle and runtime fingerprint, with failures between any two writes.
* **Request audit** (`RequestAudit`). A drop guard and a wrapped response body that emit one terminal event per request.
* **Client tunnel claim** (`TunnelClaim`). A claim with a persisted pending intent, uncertain outcomes, reconciliation
  readings, late write failures and restarts.
* **Device login import** (`DeviceLogin`). Starters, pollers, cancellers and importers under one guard, and sweeps
  without it.
* **Client identities** (`CodexVersions`, `CodexVersionSync`, `CodexUserAgents`, `CodexHeaders`,
  `CodexGuarantees`, `AntigravityIdentity`). Version parsing, the synced version cache, header finalization, and a
  generation fence.

`Prelude`, `Text` and `Decimals` hold shared arithmetic and string operations. `dafny verify dfyconfig.toml` checks
everything.

## What turned out to differ from the promise

* An image insert whose metadata write fails after the rename leaves a `.json` without its `.bin` until the next cleanup
  (`src/infra/storage.rs:124-134`); `ImageRuns.PairsSplitOnlyByLateFailure` says exactly when.
* A call can return without a finished cycle when the runner of its cycle is dropped: exactly when it leaves stranded
  (`HealthCycles.ReturnServedExactly`), and a drop strands exactly the waiting calls for which the flag is down and every
  earlier cycle begun since their own was dropped too (`HealthCycles.DropStrandsExactly`).
* An HTTP retry does not always reuse the result of an accepted probe. The probe leaves no evidence of its cycle when a
  newer or unconfirmed snapshot stands against it, or, for the local scheduler, when it finishes in another slot; if the
  activity then fails before it logs, the retry probes the same cycle a second time. `HealthRetry.RetryProbesAgainExactly`
  says exactly when, and `HealthRetry.ConfirmationWindowProbesTwice` gives the input.
* The group function by itself logs a repeated share twice on the fresh path and once on the recovered one
  (`HealthProjection.NoTwoLogsExactly`). The program never gives it such shares: its only caller takes each share id once
  (`HealthBatches.GroupSharesAreDistinct`), so the run theorems need no assumption on the shares.
* Terminal event name and outcome differ for completed requests with a status below 200 or above 599.
* A claim confirmed by a reading may be sent once more without a denial between, from every idle state
  (`TunnelClaim.ConfirmedClaimMayBeSentAgain`).
* An importer dropped during or after its account write, before the binding is removed, allows a second import
  (`DeviceLogin.CanBeImportedExactly`), and an expiry sweep without the guard does not stop an importer past its check.
* Header finalization is a fixpoint exactly for effective versions without ASCII white space and `(`.

## Model

| member | source | states |
|---|---|---|
| `ImageFiles.CleanupEffect` | src/image_store.rs:307-383 | For every directory content and every listing order, the file steps of a cleanup leave exactly the complete pairs with a valid token and valid, unexpired metadata (and foreign `.json` files whose ignored deletion failed) |
| `ImageFiles.CleanupAgreement` | src/image_store.rs:307-383 | After cleanup the `.bin` tokens, the `.json` tokens and the index keys are the same set, and each kept pair is byte for byte what it was |
| `ImageFiles.EvictionIsShortestPrefix` | src/image_store.rs:129-148 | The eviction loop removes entries oldest first by (creation time, token); every survivor is newer than every victim, the survivors leave room, and no shorter prefix would |
| `ImageFiles.EvictionNeverRunsDry` | src/image_store.rs:132-148 | The `break` for an empty index is never what ends the loop, even with a saturated byte counter |
| `ImageFiles.VictimsMakeRoom` | src/image_store.rs:129-148 | For any index and any payload within the store limit the loop ends with room, at the first point where there is room |
| `ImageFiles.RemovePairsEffect` | src/image_store.rs:402-406 | Removing pairs one file at a time deletes both files of each named token and nothing else |
| `ImageRuns.EveryRunIsGood` | src/image_store.rs:117-182 | From an empty store, after every run of opens, inserts and lookups, each cut off at any file step: at most 128 payload files holding at most 256 MiB, and each complete pair is what the latest insert of its token wrote |
| `ImageRuns.LookupIsExact` | src/image_store.rs:197-236 | In every run a lookup gives exactly the bytes (none for HEAD), MIME type and length of the latest insert of the token when its live pair is there and memory can be reserved, otherwise a miss or a capacity refusal; it deletes nothing beyond its cleanup |
| `ImageRuns.PairsSplitOnlyByLateFailure` | src/image_store.rs:158-174 | One event breaks "every `.json` has its `.bin`" if and only if it is an insert whose metadata write fails after the rename and whose roll-back then deletes the payload |
| `ImageRuns.SplitHappens` | src/image_store.rs:158-174 | Such an insert exists for every image, token and time, already in an empty store |
| `ImageRuns.EveryRunIsPaired` | src/image_store.rs:117-182 | Without such an insert, every `.json` has its `.bin` after every file step of every run |
| `ImageRuns.ExpiredIsDeleted` | src/image_store.rs:345-349 | Any operation that completes its cleanup removes a metadata file that its clock calls expired |
| `ImageRuns.AbsentUntilReinserted` | src/image_store.rs:150-175 | A token without metadata stays so over any run until an insert draws that very token |
| `ImageRuns.ExpiredIsNeverServedAgain` | src/image_store.rs:197-236 | A token once seen past its expiry is never served again, whatever later clocks say, until an insert draws it again |
| `ImageServing.InsertedIsServedExactly` | src/image_store.rs:117-236 | An image whose insert wrote both files at `now` is looked up with its own bytes (none for HEAD), type and length if and only if the clock is before `now` + 3 600 000 ms (capped at the largest i64) and memory is to be had, through every run of events that neither evict it nor clean up past that hour |
| `ImageServing.AnyImageIsInserted` | src/image_store.rs:117-182 | In every world, however full, every acceptable image can be inserted whole under every token without files, and then lies there as written |
| `ImageServing.RefusedExactly` | src/image_store.rs:123-128 | An insert of more than 268 435 456 bytes or of a type other than PNG, JPEG and WebP takes no step; any other makes room and writes both files |
| `ImageServing.HeldIsServedExactly` | src/image_store.rs:197-236 | A pair as an insert writes it gives a hit for one hour, a refusal when memory is short, and a miss from then on |
| `ImageServing.HitExactly` | src/image_store.rs:197-236 | In any directory a lookup serves exactly the payload of the recorded length and hash whose name and metadata are valid and unexpired, each condition in numbers |
| `ImageServing.CleanupKeepsExactly` | src/image_store.rs:307-383 | What a cleanup keeps, field by field: 64 hex digits, schema 1, at most 268 435 456 bytes, creation before expiry, not expired, one of three types |
| `ImageServing.SparedRunHolds` | src/image_store.rs:117-236 | A live pair stays byte for byte through every run whose clocks stay before its expiry and whose inserts do not evict it |
| `ImageServing.NothingEvictedWithRoom` | src/image_store.rs:129-148 | In every reached store with fewer than 128 payload files and room for its bytes an insert evicts nothing |
| `ImageServing.EvictionInNumbers` | src/image_store.rs:129-148 | Eviction leaves fewer than 128 entries and at most 268 435 456 bytes with the new payload, no shorter prefix would, and all it removes comes before all it leaves |
| `Prelude.StringLessExactly` | src/image_store.rs:135-139 | Token order: a proper prefix, or the smaller character where two tokens first differ |
| `ImageServing.EveryRunIsBounded` | src/image_store.rs:117-182 | At every file step of every run at most 128 payload files of 268 435 456 bytes in all |
| `ImageStore.ImageCapabilityStore.RemovePairLocked` | src/image_store.rs:402-406 | The two deletions, metadata first, are the modelled steps and empty both maps at the token |
| `ImageStore.ImageCapabilityStore.HandleMetadata` | src/image_store.rs:331-356 | Judging one metadata file takes the modelled steps and records the verdict in the snapshot |
| `ImageStore.ImageCapabilityStore.ScanMetadata` | src/image_store.rs:313-357 | The first directory pass, as a loop, takes exactly the steps of its specification and builds the matching index |
| `ImageStore.ImageCapabilityStore.ScanPayloads` | src/image_store.rs:359-375 | The second pass deletes exactly the payload files whose name is no token or had no metadata file |
| `ImageStore.ImageCapabilityStore.CleanupLocked` | src/image_store.rs:307-383 | The method leaves the cleaned directory, and returns the live index, its exact byte sum, and the expired and corrupt token sets |
| `ImageStore.FindOldest` | src/image_store.rs:135-139 | The minimum search returns the entry that precedes all others by (creation time, token) |
| `ImageStore.ImageCapabilityStore.EvictForRoom` | src/image_store.rs:129-148 | The eviction loop, with its running counters, deletes exactly the specified victims in order |
| `ImageStore.ImageCapabilityStore.MakeRoom` | src/image_store.rs:130-148 | Cleanup and eviction take exactly the steps specified for making room |
| `ImageStore.ImageCapabilityStore.DrawToken` | src/image_store.rs:150-157 | The draw loop takes the first drawn token that names neither file |
| `ImageStore.FirstFreeIsFirst` | src/image_store.rs:150-157 | The token taken is the first drawn one that names neither file: all draws before it name one |
| `ImageStore.ImageCapabilityStore.WriteNew` | src/image_store.rs:158-174 | Payload first, then metadata: a payload write that fails, before or after its rename, ends the insert; a metadata write that fails, before or after its rename, rolls the payload back |
| `ImageStore.ImageCapabilityStore.InsertAt` | src/image_store.rs:117-182 | An insert takes exactly its script under the first drawn token that names no file once room is made: refusals first, cleanup, eviction, the two writes; and reports which of them ended it |
| `ImageStore.ImageCapabilityStore.GetAtMode` | src/image_store.rs:197-236 | A lookup takes exactly its script and returns the specified result, given whether memory could be reserved |
| `ImageStore.ImageCapabilityStore.Serve` | src/image_store.rs:218-235 | An indexed entry is served, refused for memory, or its pair removed, by the verdict on length, memory and hash in that order |
| `ImageVerifier.Absorb` | src/image_store.rs:275-291 | Hashing chunk after chunk equals hashing the part read so far |
| `ImageVerifier.ReadExact` | src/image_store.rs:279-288 | Reading a chunk into the buffer fills that slice and leaves what came before it |
| `ImageVerifier.HashChunks` | src/image_store.rs:274-291 | For every length and buffer size the loop ends, fails exactly on a short file, yields the hash of the whole payload, and in body mode the whole payload |
| `ImageVerifier.ReadVerifiedPayload` | src/image_store.rs:240-305 | Body and HEAD accept in the same cases (length and hash match, nothing appended); body returns the file; HEAD's peak memory is 64 KiB plus constants; all memory is given back unless a body is returned; a refusal is not a mismatch |
| `ImageVerifier.ResidentMemory.Reserve` | src/infra/resident_memory.rs:125-141 | A reservation within the limit is charged and moves the high-water mark; one beyond it changes nothing |
| `ImageVerifier.ResidentMemory.Release` | src/infra/resident_memory.rs:142-150 | A dropped reservation is given back |
| `ImageVerifier.MemoryInNumbers` | src/image_store.rs:256-273 | A lookup charges the length and one byte for a body, and 65 536 bytes and one for HEAD; it goes ahead if and only if charge and use stay within the limit |
| `HealthCycles.EveryRunKeepsInv` | src/api/provider_health_scheduler.rs:94-105 | Over every interleaving of any number of callers, drops included: one mutex holder, at most one open cycle, every waiting call covered by the flag or by a cycle begun after it |
| `HealthCycles.ReturnMeansCycle` | src/api/provider_health_scheduler.rs:94-105 | When a call returns, some cycle began after that call raised the flag and is over; if no cycle that covers the call was dropped with its runner, one of them ran to its end before the return |
| `HealthCycles.CyclesAreSerialAndFew` | src/api/provider_health_scheduler.rs:94-105 | Cycles never overlap, and there are never more of them than calls |
| `HealthCycles.NoneAbandoned` | src/api/provider_health_scheduler.rs:100-104 | Only a caller dropped inside its cycle can leave one unfinished |
| `HealthCycles.ReturnServedExactly` | src/api/provider_health_scheduler.rs:94-105 | For every run, a call that returned had a cycle begun after it raised the flag and finished before it returned, if and only if it was not stranded (flag down, every covering cycle dropped) when it last lowered the flag |
| `HealthCycles.DropStrandsExactly` | src/api/provider_health_scheduler.rs:94-105 | Dropping the runner of a cycle strands a waiting call if and only if the flag is down and every earlier cycle that covers the call was dropped too |
| `HealthCycles.OnlyDropsStrand` | src/api/provider_health_scheduler.rs:94-105 | No action but the drop of a runner strands a call |
| `HealthCycles.LeftStrandedByADrop` | src/api/provider_health_scheduler.rs:94-105 | A call that left stranded was stranded by the drop of a runner, and at every point from then until it left |
| `HealthCycles.UnstrandedReturnIsServed` | src/api/provider_health_scheduler.rs:94-105 | A call that no drop strands returns after a finished cycle, whatever else was dropped in the run |
| `HealthCycles.StrandedReturnsUnserved` | src/api/provider_health_scheduler.rs:99-105 | From every state, a stranded call that gets the mutex before the flag goes up again returns with only dropped cycles |
| `HealthCycles.AnyTwoCallersCanStrand` | src/api/provider_health_scheduler.rs:94-105 | Any two callers can come to that state |
| `HealthSlots.ExactlyOneSlot` | src/api/provider_health_scheduler.rs:970-975 | A half-hour slot contains an instant if and only if it is the slot computed for it |
| `HealthSlots.SourceNamesItsSlot` | src/api/provider_health_scheduler.rs:970-987 | The source text printed for an instant parses back to its slot |
| `HealthSlots.PrintedSlotReadsBack` | src/api/provider_health_scheduler.rs:970-987 | A source text is the printed one for a slot if and only if it parses to that slot and writes the number plainly |
| `HealthSlots.SpellingsExactly` | src/api/provider_health_scheduler.rs:983-987 | A text reads as a 128-bit slot number if and only if it is its decimal text after any zeros, after a plus sign or none |
| `HealthSlots.InSlotExactlyWhenSameSource` | src/api/provider_health_scheduler.rs:983-987 | A time is in the slot a plainly written source names if and only if it gives that source text; other spellings (`+1800`, `01800`) name a slot and are no time's text |
| `HealthRecords.EligibleExactlyWhenSameSource` | src/api/provider_health_scheduler.rs:983-998 | A locally scheduled log serves a Router cycle named by a plain slot number if and only if its own time gives that cycle's source text and Provider and fingerprint match |
| `HealthRecords.WriteThenRecover` | src/api/provider_health_scheduler.rs:1113-1151 | Recovering a result from the log written for it keeps status, HTTP status, model, category and non-negative test time, and fixes exactly what becomes of the other fields |
| `HealthRecords.PlainReadingAgrees` | src/api/provider_health_scheduler.rs:1079-1080 | Read without its evidence, a log tells success from failure as the result does if and only if a success came with a 2xx or 3xx status and an unstreamed failure came without one; it starts the response time before the test |
| `HealthRecords.ReplayIsIdempotent` | src/api/provider_health_scheduler.rs:1113-1151 | A replay of a replay equals the replay, unless and only unless the result contradicts itself and redaction rewrites the substitute message |
| `HealthRecords.ReplayedLogIsTheSame` | src/api/provider_health_scheduler.rs:1441-1499 | The log written from a recovered result is the log it was recovered from, up to the share it is for |
| `HealthRecords.LatestIsTheLast` | src/api/provider_health_scheduler.rs:1021-1031 | The log chosen is a latest matching one, and of several the one stored last |
| `HealthRecords.EarliestIsTheFirst` | src/api/provider_health_scheduler.rs:988-999 | The local log chosen is an earliest scheduled one of the slot with the same fingerprint, and of several the one stored first |
| `HealthRecords.FoundExactlyWithEvidence` | src/api/provider_health_scheduler.rs:958-1111 | A result is recovered if and only if a log or snapshot of the cycle exists, or the local scheduler left one in the slot the source names |
| `HealthRecords.RecordingLeavesEvidence` | src/domain/health.rs:161-239 | Recording leaves a snapshot of the cycle unless and only unless a newer or still unconfirmed snapshot of something else stands against it |
| `HealthRecords.RecordThenRecover` | src/api/provider_health_scheduler.rs:1035-1076 | A result recovered from its snapshot is the one recovered from its log, except for the retry count, an absent response time and a blank model |
| `HealthSnapshots.RecordExactly` | src/domain/health.rs:161-239 | Recording keeps the snapshot there is exactly when that is newer, or is a pending failure still counting and the new failure, of five named categories, comes less than 60 000 ms after it; otherwise the new snapshot tells the observation field by field |
| `HealthSnapshots.KeptExactly` | src/domain/health.rs:161-239 | Recording gives back the snapshot there is if and only if it stands so, or tells the very same observation |
| `HealthSnapshots.CountsExactly` | src/domain/health.rs:174-200 | A failure adds one to the failures of the same revision and runtime that are less than 65 minutes old, anything else starts anew; pending is exactly a first failure of the five categories |
| `HealthSnapshots.CheckedNeverGoesDown` | src/domain/health.rs:161-170 | Over any sequence of observations in any order the snapshot's time never goes down |
| `HealthSnapshots.LateTestIsIgnored` | src/domain/health.rs:161-167 | A test older than the snapshot leaves it as it is |
| `HealthSnapshots.SecondFailureConfirms` | src/domain/health.rs:161-239 | A first failure that may pass is pending; a second within a minute changes nothing, one from a minute to 65 minutes later replaces it and is confirmed, a later one is a first one again |
| `HealthSnapshots.OthersAreNeverPending` | src/domain/health.rs:174-239 | Any other observation is never pending, and one that is no failure starts the count anew |
| `HealthRecovery.ForeignLogsDoNotMatter` | src/api/provider_health_scheduler.rs:958-1033 | A log of another Provider, runtime or source, wherever it stands, changes nothing of what is recovered |
| `HealthRecovery.OneLogServesExactly` | src/api/provider_health_scheduler.rs:958-1033 | A single log serves a cycle if and only if it is a health check of this Provider and runtime, and is of the cycle, or is a readable one the local scheduler made in the half hour the cycle names |
| `HealthRecovery.OneLogTells` | src/api/provider_health_scheduler.rs:1021-1111 | What is told of a cycle with a log: its evidence when readable, else the cycle's snapshot, else its plain fields (success exactly for 200-399 with a stream completed or absent), always with the log's tries |
| `HealthRecovery.SnapshotServesExactly` | src/api/provider_health_scheduler.rs:1035-1076 | Without logs a snapshot serves exactly when it is of the runtime, and is of the cycle or was checked by the local scheduler in the half hour the cycle names |
| `HealthRecovery.PlainFields` | src/api/provider_health_scheduler.rs:1441-1499 | A log has status 599 for no answer, and a stream status of completed or failed exactly for a streamed success or failure |
| `HealthReplay.StepToUndecided` | src/api/provider_health_scheduler.rs:812-814 | Only a check that found nothing brings an activity to the point of probing |
| `HealthReplay.CheckedBeforeProbing` | src/api/provider_health_scheduler.rs:737-830 | An activity about to probe checked at a moment without evidence, and no probe of the cycle was accepted since |
| `HealthReplay.SecondProbeNeedsLostEvidence` | src/api/provider_health_scheduler.rs:737-956 | For every interleaving of batches, local runs, failures, cancellations and outside changes: between two accepted probes of one cycle and fingerprint there is a moment with no evidence left |
| `HealthReplay.AtMostOneProbeWhileKept` | src/api/provider_health_scheduler.rs:737-956 | While the log or snapshot an accepted probe left is kept, no other probe of that cycle and fingerprint is accepted, by Router batch or local scheduler |
| `HealthReplay.AcceptedBatchLeavesEvidence` | src/api/provider_health_scheduler.rs:908-921 | With nothing of the cycle recorded before, a batch's accepted probe leaves evidence if and only if no snapshot stands against it |
| `HealthReplay.AcceptedLocalLeavesEvidence` | src/api/provider_health_scheduler.rs:278-333 | A local probe leaves evidence for the slot it checked if and only if no snapshot stands against it and it tested within that slot |
| `HealthRetry.OpensExactly` | src/api/provider_health_scheduler.rs:812-830 | An activity comes to the point of probing if and only if nothing of its cycle is recorded |
| `HealthRetry.UnrecordedCycleIsProbed` | src/api/provider_health_scheduler.rs:908-921 | From every idle state without evidence, an undisturbed activity accepts every genuine probe whose snapshot is of the runtime it was asked about |
| `HealthRetry.AcceptedLeavesEvidenceExactly` | src/api/provider_health_scheduler.rs:908-921 | By either scheduler, an accepted probe leaves evidence unless and only unless a snapshot stands against it or the local one tested outside the slot it checked |
| `HealthRetry.RetryProbesAgainExactly` | src/api/provider_health_scheduler.rs:691-694 | After an accepted probe and a failure before any log, an undisturbed retry probes the cycle again if and only if that probe was superseded or, if local, tested outside its slot; it then accepts the same result a second time |
| `HealthRetry.UnrecordedProbeIsRepeated` | src/api/provider_health_scheduler.rs:737-956 | From every idle state without evidence, such a probe is followed by a second accepted one in a run of cut-short batch and retry |
| `HealthRetry.ConfirmationWindowProbesTwice` | src/api/provider_health_scheduler.rs:691-694 | It happens from an empty store: a local transient failure at the end of a slot, a batch that fails transiently within a minute in the next slot and then fails to log, and its retry: two accepted probes of one cycle |
| `HealthProjection.NewLog` | src/api/provider_health_scheduler.rs:1441-1499 | A log written for a cycle is of that cycle and share, and recovering it and writing again gives the same body |
| `HealthProjection.RecoveredAgrees` | src/api/provider_health_scheduler.rs:958-968 | What a batch recovers says what every log of the cycle already says; if it recovers nothing there is no such log |
| `HealthProjection.NeverTwoLogsNorTwoResults` | src/api/provider_health_scheduler.rs:812-952 | At every point of every run with retries and partial failures, whatever share ids the requests repeat, no share has two logs of a cycle, and all logs of it carry one result and one quota flag |
| `HealthProjection.FinishedBatchCoversItsShares` | src/api/provider_health_scheduler.rs:812-952 | When a batch ends after any number of failed ones, each share it named has exactly one log of the cycle |
| `HealthProjection.WritesCount` | src/api/provider_health_scheduler.rs:818-832 | For every store, result and list of shares, repeated or not: how many logs each share has after any number of writes, on the recovered, the fresh and the quota path |
| `HealthProjection.NoTwoLogsExactly` | src/api/provider_health_scheduler.rs:816-832 | The group function, given shares as they come, gives no share two logs if and only if it recovered its result or names no missing share twice; on a cycle without logs, if and only if it recovered or the shares are distinct |
| `HealthProjection.ProjectMarksLogged` | src/api/provider_health_scheduler.rs:816-817 | Reading the share ids marks exactly the shares that have a log of the cycle |
| `HealthProjection.GroupLogsOnceExactly` | src/api/provider_health_scheduler.rs:816-845 | From a found result, reading the share ids and writing them all gives no share two logs if and only if the result was recovered or no share without a log is named twice |
| `HealthProjection.QuotaLogsOnceExactly` | src/api/provider_health_scheduler.rs:851-906 | After a quota block of a cycle without logs, no share is logged twice if and only if the shares are distinct |
| `HealthBatches.DedupeTargets` | src/api/control/share_router.rs:213-275 | The caller's loop takes each trimmed share id once, at its first mention, and keeps the admitted ones in order |
| `HealthBatches.FirstMentionsAreDistinct` | src/api/control/share_router.rs:213-220 | Every id a request names appears exactly once, trimmed, and nothing else does |
| `HealthBatches.GroupSharesAreDistinct` | src/api/control/share_router.rs:213-275 | Whatever a request names and however often, a group names no share twice, and names exactly the admitted ones among those requested |
| `HealthProjection.UsageJournal.ProjectToShares` | src/api/provider_health_scheduler.rs:815-845 | The loop that logs a result for each target takes exactly the steps of the model, stops short only at a failing push, and outputs the same result and quota flag for each target done |
| `HealthWholeRuns.RecordedCycleIsLogged` | src/api/provider_health_scheduler.rs:812-845 | An undisturbed batch of a cycle whose result is recorded ends with a log of that very result for exactly the shares of its group that have none, in order, and changes nothing else |
| `HealthWholeRuns.FreshCycleIsLogged` | src/api/provider_health_scheduler.rs:908-952 | An undisturbed batch of a cycle without a record ends with the probe's snapshot and a log of its result for every share of its group; when the snapshot is of another runtime, with the snapshot and no log |
| `HealthWholeRuns.BlockedCycleIsLogged` | src/api/provider_health_scheduler.rs:851-906 | With a quota block it ends with a log of the block for every share and no probe |
| `HealthWholeRuns.RecordedSlotIsLeftAlone` | src/api/provider_health_scheduler.rs:276-288 | The local scheduler changes nothing in a slot that has a result |
| `HealthWholeRuns.FreshSlotIsLogged` | src/api/provider_health_scheduler.rs:311-345 | In a slot without a result the local scheduler leaves the probe's snapshot and a log for every share, under its own source and the snapshot's runtime |
| `HealthWholeRuns.MissingExactly` | src/api/provider_health_scheduler.rs:818-832 | The shares logged are those without a log, each as often as it is named |
| `HealthWholeRuns.WrittenLogSays` | src/api/provider_health_scheduler.rs:1441-1499 | Source, share, runtime, Provider, time, status and evidence of each log written |
| `RequestAudit.NameAgreesWithOutcome` | src/api/request_audit.rs:368-378 | Event name and outcome agree if and only if the request was interrupted or its terminal status is from 200 to 599 (section 15 of RFC 9110) |
| `RequestAudit.RequestAuditLifecycle.FinishAs` | src/api/request_audit.rs:319-378 | The first finish appends one terminal event of its kind, with the status, name and outcome that `TerminalReports` gives in numbers and texts; later ones append nothing |
| `RequestAudit.PendingRequestAudit.Disarm` | src/api/request_audit.rs:499-503 | A disarmed guard emits nothing |
| `RequestAudit.PendingRequestAudit.Drop` | src/api/request_audit.rs:505-511 | Dropping an armed guard finishes the request as cancelled in its handler |
| `RequestAudit.AuditedResponseBody.PollFrame` | src/api/request_audit.rs:535-577 | One poll of the wrapped body changes the countdown and emits as specified for every frame, end, error and pending |
| `RequestAudit.AuditedResponseBody.DropBody` | src/api/request_audit.rs:588-594 | Dropping the body finishes a live request as cancelled downstream |
| `RequestAudit.AuditedResponseBody.TakeAndFinish` | src/api/request_audit.rs:541-543 | The lifecycle is taken at most once |
| `RequestAudit.CounterTracksDelivery` | src/api/request_audit.rs:553-567 | After every trace the countdown is the exact positive hint minus the bytes delivered, and is switched off by an overshoot |
| `RequestAudit.FirstDecisiveSignalFinishes` | src/api/request_audit.rs:535-594 | The finish comes from the first decisive signal and is of its kind; exact-length completion happens just when delivered lengths reach the hint without overshoot |
| `RequestAudit.ExactlyOneFinish` | src/api/request_audit.rs:186-286 | Every admitted request has at most one finish, and exactly one once its handler was dropped, its body was empty, or its body ended, failed, completed or was dropped |
| `RequestAudit.AuditedResponseBody.Handle` | src/api/request_audit.rs:535-594 | Each poll or drop changes the body and emits as the specification of one signal says |
| `RequestAudit.WatchBody` | src/api/request_audit.rs:271-286 | A wrapped body taken through any trace leaves exactly the terminal events of that trace |
| `RequestAudit.AuditRequest` | src/api/request_audit.rs:186-286 | Driving guard, lifecycle and body through any trace leaves exactly the terminal events specified for it, each reporting its status, name and outcome in numbers and texts; a dropped handler leaves 499 |
| `RequestAudit.TerminalReports` | src/api/request_audit.rs:480-493 | In numbers and texts: a completed request with `provider_failed` leaves 502, with `client_error` 400, else the HTTP status; an interrupted one keeps its status; its outcome is rejected exactly for 400-499 and its name failed exactly for 500-599 |
| `RequestAudit.TerminalsReport` | src/api/request_audit.rs:319-378 | Every terminal event of every trace reports so |
| `TunnelClaim.EveryRunKeepsInv` | src/client_tunnel_provision.rs:355-462 | Over every run with failed writes, cancellations, configuration changes and restarts, an intent sent and not settled is the pending one in memory and on disk |
| `TunnelClaim.SentStaysPending` | src/client_tunnel_provision.rs:355-462 | An intent whose claim was sent stays pending in memory and on disk until the router's view is read for it, a definite answer arrives or the configuration changes |
| `TunnelClaim.SecondSendIsAfterSettling` | src/client_tunnel_provision.rs:355-462 | Between two sends of one intent a reading, a definite answer or a configuration change lies |
| `TunnelClaim.ResentOnlyAfterDenial` | src/client_tunnel_provision.rs:370-393 | A claim with an uncertain outcome that no reading confirmed is sent again only after a reading that did not match |
| `TunnelClaim.ConfirmedClaimMayBeSentAgain` | src/client_tunnel_provision.rs:370-404 | From every reached idle state whose configuration still describes the intent, some continuation sends its claim again with no denial, definite answer or configuration change on the way, because a confirming read succeeded and a later one failed |
| `TunnelClaim.SuccessOnlyWhenConfirmed` | src/client_tunnel_provision.rs:576-618 | Success is committed only for an intent that the router accepted, or showed with its owner up to letter case, its subdomain, and enabled |
| `TunnelClaim.ClaimState.CommitSuccess` | src/state.rs:7866-7890 | Success clears the pending intent only if it is current, in memory only when the write was stored |
| `TunnelClaim.ClaimState.CommitFailure` | src/state.rs:7892-7910 | Failure clears the pending intent only if it is current, as conflict or failure |
| `TunnelClaim.ClaimState.RetainPending` | src/state.rs:7912-7924 | A retained claim stays pending |
| `TunnelClaim.ClaimState.Mutate` | src/state.rs:7563-7576 | A configuration write changes the disk unless it failed early, and memory only when it succeeded |
| `TunnelClaim.ClaimState.Settle` | src/client_tunnel_provision.rs:436-456 | Settling by the router's view: a tunnel of the owner up to letter case, of the subdomain, and enabled commits success, any other view failure, a failed read keeps the claim pending; what is left in memory and on disk |
| `TunnelClaim.ClaimState.SendClaim` | src/client_tunnel_provision.rs:423-461 | What follows from each answer to a claim, with the second reading after a success that could not be stored |
| `TunnelClaim.ClaimState.BeginAndSend` | src/client_tunnel_provision.rs:405-461 | The intent is recorded before anything is sent; every path releases the lock in a state some run of the model reaches |
| `TunnelClaim.ClaimState.ResolvePending` | src/client_tunnel_provision.rs:370-393 | A claim already pending goes on only after a denial that was recorded |
| `TunnelClaim.ClaimState.ConfirmOrSend` | src/client_tunnel_provision.rs:394-461 | A tunnel already claimed is left alone when the router shows it, and claimed anew otherwise |
| `TunnelClaim.ClaimState.Claim` | src/client_tunnel_provision.rs:355-462 | Every path through the call, for all answers of network and disk, is a run of the model; when it succeeds, and what every path leaves in memory and on disk |
| `TunnelClaim.ClaimState.ReconcilePending` | src/client_tunnel_provision.rs:663-701 | Reconciliation succeeds if and only if the view shows an enabled tunnel of the intent's owner and subdomain, the pending intent is the current one, and the write is stored; what every other view and write leaves in memory and on disk |
| `TunnelClaim.ShowsExactly` | src/client_tunnel_provision.rs:545-554 | The router's view matches if and only if there is a tunnel whose owner is the intent's up to ASCII letter case, whose subdomain is exactly the intent's, and which is enabled |
| `TunnelClaim.ClaimSucceedsExactly` | src/client_tunnel_provision.rs:355-462 | A call succeeds exactly when a pending claim is shown and stored, a claimed tunnel is shown, or a claim is sent and accepted or, its outcome uncertain or unstored, shown, and stored; a pending one is sent again only after a reading that denied it was stored |
| `TunnelClaim.DifferingViewDenies` | src/client_tunnel_provision.rs:436-456 | A view that differs in owner, in subdomain or in being enabled settles a claim as no tunnel at all does: nothing pending, with status conflict or failure |
| `TunnelClaim.AgreeingViewClaims` | src/client_tunnel_provision.rs:436-456 | A view that agrees in all three, whatever the case of the owner's letters, settles it as claimed with nothing pending |
| `DeviceLogin.AtMostOneImport` | src/api/accounts.rs:1879-1946 | Over every interleaving, the account of one login reaches the disk at most once more than importers of it went away after that with the binding in place (dropped during or after the write, or shown an error); with none, at most once |
| `DeviceLogin.LostImporterAllowsAnother` | src/api/accounts.rs:1907-1933 | That bound is met: an importer dropped after its write leaves the login bound, and a second import succeeds |
| `DeviceLogin.CanBeImportedExactly` | src/api/accounts.rs:1879-1946 | In every state, and however often it was imported, some continuation imports a login once more if and only if it is bound or an importer is past its check for it |
| `DeviceLogin.EveryImportIsRightful` | src/api/accounts.rs:1886-1906 | Every import is for the principal and provider type of its login, by an importer that finished before the login expired |
| `DeviceLogin.NeverAfterCancelOrExpiry` | src/api/accounts.rs:966-983 | A login removed by a cancellation, or seen expired under the guard, is never imported afterwards in any run |
| `DeviceLogin.SweepStopsImportExactly` | src/state.rs:903-914 | A sweep that does not take the guard ends a login for good if and only if no importer is past its check |
| `DeviceLogin.GoneIsNeverImported` | src/api/accounts.rs:1879-1946 | A login that is not bound and that no importer is past its check for is never imported again |
| `DeviceLogin.CompletedImportEndsTheLogin` | src/api/accounts.rs:1924-1933 | Once an import has completed, its login is gone |
| `DeviceLogin.ImportableExactly` | src/api/accounts.rs:1886-1923 | An undisturbed importer imports if and only if the login is bound to its principal, unexpired at its time, and of its account's type |
| `DeviceLogin.UnfinishedImportLeavesImportable` | src/api/accounts.rs:1907-1923 | An account write that fails, or an importer dropped past its check, changes no binding and frees the guard, and the next importer succeeds; a write that did not reach the disk adds no account |
| `DeviceLogin.DeviceLogins.Cleanup` | src/state.rs:985-988 | Cleanup keeps exactly the bindings that have not expired |
| `DeviceLogin.DeviceLogins.IsOwnedBy` | src/state.rs:903-914 | An owner check sweeps, then answers whether the live binding is the principal's |
| `DeviceLogin.DeviceLogins.RemoveForPrincipal` | src/state.rs:916-933 | After a removal a login is bound exactly when it was, is unexpired, and is not this one bound to this principal |
| `DeviceLogin.DeviceLogins.Start` | src/api/accounts.rs:1526-1552 | A start binds the code to its principal in place of any earlier login under it |
| `DeviceLogin.DeviceLogins.CancelLogin` | src/api/accounts.rs:1688-1710 | A cancellation removes a live login of the caller, and answers false with every unexpired login left as it was otherwise |
| `DeviceLogin.DeviceLogins.Persist` | src/api/accounts.rs:1879-1946 | The import, as it runs, imports exactly the importable login whose write is stored, and is a run of the model |
| `DeviceLogin.DeviceLogins.WriteAndRemove` | src/api/accounts.rs:1907-1933 | Past its check, an import removes the binding when the write was stored and keeps it when not |
| `DeviceLogin.BindingsExactly` | src/state.rs:903-933 | After a removal at `now` a login is bound exactly when it was, was unexpired at `now`, and is not this login of this principal; and unchanged |
| `DeviceLogin.OthersCannotTakeAway` | src/state.rs:916-933 | Through any run of starts, checks, sweeps, imports and cancellations by others an unexpired login stays bound as it was and can still be imported |
| `DeviceLogin.ImporterTakesOnlyTheImported` | src/api/accounts.rs:1907-1933 | In every run an importer takes away no unexpired login but its own, and that only after its account reached the disk |
| `DeviceLogin.DeviceLogins.ImportUnderGuard` | src/api/accounts.rs:1886-1933 | The import under the guard sweeps, imports exactly the caller's own live login whose write is stored, and removes only that one |
| `Decimals.DecimalHasItsValue` | src/codex_identity.rs:247-252 | Decimal text reads back as its number, without a leading zero |
| `Decimals.ValueHasItsDecimal` | src/codex_identity.rs:247-252 | A digit text without leading zero is the only text of its value |
| `Decimals.PaddedExactly` | src/codex_identity.rs:432-440 | The digit texts of a number are its decimal text after any number of zeros |
| `CodexVersions.ShowThenParse` | src/codex_identity.rs:228-252 | Every triple of u64 parts, printed, is strictly parsed back |
| `CodexVersions.ParseThenShow` | src/codex_identity.rs:228-252 | The strict parser accepts only the printed form, up to surrounding white space |
| `CodexVersions.AcceptedExactlyWhenPrinted` | src/codex_identity.rs:228-252 | A text parses strictly to a version if and only if its trimmed form is that version printed (no leading zeros, item 2 of Semantic Versioning 2.0.0) |
| `Text.EqIgnoreCaseExactly` | src/codex_identity.rs:404-424 | Two texts are equal up to ASCII case exactly when they have equal length and each pair of characters is equal or a letter and its other case |
| `Text.TrimTakesBlanks` | src/codex_identity.rs:409-416 | Trimming takes white space off both ends and nothing else |
| `CodexVersions.StrictImpliesLoose` | src/codex_identity.rs:432-440 | The loose parser agrees with the strict one wherever the strict one accepts |
| `CodexVersions.SuffixIsIgnored` | src/codex_identity.rs:432-440 | The loose parser ignores a suffix after a dash or plus sign, whatever it holds |
| `CodexVersions.BuiltInParses` | src/codex_identity.rs:11 | The built-in version is strictly valid |
| `CodexVersions.ConfiguredNeverBelowBuiltIn` | src/codex_identity.rs:57-69 | Whatever is configured or synced, the effective version is trimmed, readable and not below the built-in one |
| `CodexVersionSync.StepStores` | src/codex_identity.rs:153-179 | A sync stores the greatest of built-in, readable cached and fetched version, or changes nothing |
| `CodexVersionSync.StoredNeverGoesDown` | src/codex_identity.rs:153-179 | Over every run of starts and syncs with a readable cache, the stored version never goes down, nor below the built-in one |
| `CodexVersionSync.StoredIsTheGreatest` | src/codex_identity.rs:153-179 | After every such run the stored version is the greatest of all offered, the built-in one and the one found first |
| `CodexVersionSync.LoweredExactlyWhenUnread` | src/codex_identity.rs:153-179 | A sync lowers the stored version if and only if it replaces the file after failing to read a version above both the built-in and the fetched one |
| `CodexVersionSync.SyncedIsUsed` | src/codex_identity.rs:86-97 | After a completed sync the process uses what it stored, and a restart reads the same |
| `CodexVersionSync.ReleaseNamesVersion` | src/codex_identity.rs:212-220 | A name or tag gives a text if and only if that is a strictly valid version standing after nothing, `v`, `rust-` or `rust-v` |
| `CodexVersionSync.ReleaseHasVersion` | src/codex_identity.rs:182-220 | A release has a version if and only if its name carries it, or its name carries none and its tag carries it |
| `CodexVersionSync.PrintedVersionIsFetched` | src/codex_identity.rs:182-220 | A printed version after an allowed prefix in the name is the release's whatever the tag says; in the tag, when the name carries none |
| `CodexUserAgents.CanonicalSettles` | src/codex_identity.rs:404-424 | A canonical originator is official, printable, trimmed and its own canonical form |
| `CodexUserAgents.TrailerIsTheLastParenthesis` | src/codex_identity.rs:389-402 | The trailer name is what stands in the last parenthesis up to a semicolon, when only white space follows it |
| `CodexUserAgents.PairLeads` | src/codex_identity.rs:363-387 | Pairing gives a user agent that is the originator, a slash and the rest of the original |
| `CodexUserAgents.PairAgain` | src/codex_identity.rs:363-387 | Pairing a user agent already led by its canonical originator changes nothing |
| `CodexUserAgents.SetVersionLeads` | src/codex_identity.rs:273-285 | Setting the version gives originator, slash, version and the old tail |
| `CodexUserAgents.SetVersionTwice` | src/codex_identity.rs:273-285 | Setting a version twice equals setting it once if and only if it holds no ASCII white space and no `(` |
| `CodexHeaders.LastHeaderDecides` | src/codex_identity.rs:335-342 | The last header of a name decides its value, trimmed; a blank one hides earlier ones |
| `CodexHeaders.ThreeReplacements` | src/codex_identity.rs:304-307 | Replacing the three identity headers one after the other leaves the other headers in order, then the three |
| `CodexHeaders.HeaderList.ReplaceOrPush` | src/codex_identity.rs:344-347 | All headers of the name go, and the new one comes last |
| `CodexHeaders.HeaderList.Finalize` | src/codex_identity.rs:287-307 | The in-place finalization leaves the other headers followed by the three identity headers |
| `CodexHeaders.IdentityIsCoherent` | src/codex_identity.rs:254-302 | For every input the originator is official and settled, the version not below the built-in one, and the user agent is originator, slash, version, tail |
| `CodexHeaders.FinalizedIsCoherent` | src/codex_identity.rs:287-307 | For every header list exactly one header of each identity name is left, they agree with one another, and the other headers keep their order |
| `CodexHeaders.IdentityFixpoint` | src/codex_identity.rs:287-302 | Recomputing the three values from themselves changes nothing if and only if the version holds no ASCII white space and no `(` |
| `CodexHeaders.FixpointExactly` | src/codex_identity.rs:287-307 | Finalizing twice equals finalizing once if and only if the effective version holds no ASCII white space and no `(` |
| `CodexHeaders.SuffixBreaksTheFixpoint` | src/codex_identity.rs:287-307 | Every high enough version with a white space or parenthesis in its dash or plus suffix is accepted as version header and is not a fixpoint |
| `CodexHeaders.ShippedSettingsAreProper` | src/codex_identity.rs:11-48 | The shipped originator list and built-in version satisfy what finalization relies on |
| `CodexGuarantees.ConfiguredBeforeSynced` | src/codex_identity.rs:57-69 | A printed configured version is used, whatever was synced, exactly when it is not below the built-in one |
| `CodexGuarantees.SyncedBeforeBuiltIn` | src/codex_identity.rs:57-69 | With nothing configured a printed synced version is used exactly when it is not below the built-in one |
| `CodexGuarantees.LeadingVsAreIgnored` | src/codex_identity.rs:432-440 | Any number of leading v's is ignored by the loose parser |
| `CodexGuarantees.ReadExactly` | src/codex_identity.rs:432-440 | The loose parser reads a version from exactly the texts that, trimmed, are v's, three 64-bit numbers between dots (leading zeros allowed), and nothing or a further dot, dash or plus sign with anything after it |
| `CodexGuarantees.HeaderVersionDecides` | src/codex_identity.rs:287-302 | A printed version header is the final version exactly when it is not below the built-in one; else the configured version is |
| `CodexGuarantees.CacheServesExactly` | src/codex_identity.rs:195-210 | A cache file serves exactly with schema 1, its source name, and a strict version not below the built-in one |
| `CodexGuarantees.LeadingNameDecides` | src/codex_identity.rs:363-387 | An agent led by a listed name in any case of letters is that client's, and is led by the name as listed |
| `CodexGuarantees.TrailerNameDecides` | src/codex_identity.rs:363-402 | An agent led by another product is the client's that its closing parenthesis names before the semicolon |
| `CodexGuarantees.CodexProductIsItself` | src/codex_identity.rs:363-416 | An unlisted product that begins with `Codex ` is its own client and keeps its agent |
| `CodexGuarantees.UnknownAgentIsNobodys` | src/codex_identity.rs:363-402 | An agent without a parenthesis whose product is neither listed nor begins with `Codex ` is nobody's |
| `CodexGuarantees.ConfiguredAgentDecides` | src/codex_identity.rs:254-302 | Without a user agent header a configured agent decides the originator; without one, or with one no client is known for, the default does |
| `CodexGuarantees.HeaderAgentDecides` | src/codex_identity.rs:287-302 | A user agent header decides the originator, whatever agent is configured |
| `CodexGuarantees.FixpointInPlainTerms` | src/codex_identity.rs:273-307 | Finalizing twice equals finalizing once exactly when no tab, line feed, form feed, return, space or `(` is in the effective version |
| `AntigravityIdentity.IdentityState.constructor` | src/domain/antigravity_identity.rs:42-47 | A new state holds the version and an identity of a fresh generation |
| `AntigravityIdentity.IdentityState.Capture` | src/domain/antigravity_identity.rs:49-55 | A capture replaces the identity exactly when the effective version differs, and returns the current one |
| `AntigravityIdentity.IdentityState.Update` | src/domain/antigravity_identity.rs:57-64 | A valid version is cached and captured; a rejected one changes nothing |
| `AntigravityIdentity.GenerationComesFromRun` | src/domain/antigravity_identity.rs:20-55 | After every run the identity is the earlier one or carries a generation drawn in the run |
| `AntigravityIdentity.ChangedIdentityIsGone` | src/domain/antigravity_identity.rs:31-55 | Once the identity has changed, no later event brings the old one back |
| `AntigravityIdentity.EqualExactlyWhenNothingElseObserved` | src/domain/antigravity_identity.rs:20-64 | With fresh generations, two captured identities are equal if and only if every effective version observed between them was the same and the process did not restart; so A, B, A never revives the first |
| `AntigravityIdentity.CaptureGives` | src/domain/antigravity_identity.rs:49-55 | After any run a capture gives the configured version when there is one, and the last accepted update otherwise, with a user agent naming it and a new generation exactly when the version changed |
| `AntigravityIdentity.UpdateGives` | src/domain/antigravity_identity.rs:57-64 | An accepted update is cached and shown unless a version is configured; any other leaves the state as it was |
| `AntigravityIdentity.CachedIsLastAccepted` | src/domain/antigravity_identity.rs:20-64 | After every run the cached version is the last one an update brought that is 1 to 64 letters, digits, dots, dashes, underscores and plus signs, since the last restart |

## Left out

- Temporary files of atomic writes: each write or delete is one step, and a leftover temporary file is invisible to every other operation
- Ignored delete failures: a foreign `.json` that could not be deleted is named by an input (`stuck`); other failed deletions are the operation stopping there
- A payload or metadata file that exists but cannot be read for a passing reason: a metadata file either parses or does not, as the directory says
- Endless token draws: an insert whose given draws all name files is left still drawing
- File locks, mutexes and the managed-auth guard: modelled as mutual exclusion; fairness and blocking time are not
- SHA-256: an incremental hash with the law that two updates equal one update of the concatenation; collision resistance is not used
- Metrics, tracing, event emission beside the terminal audit event, router refresh notices
- `run_probe_with_retries` and the probe itself: a probe is any consistent result whose category is not the one kept for quota blocks
- Quota evaluation: whether a Provider is blocked is an input; the local scheduler's own quota logs go under another source and are an outside change of the store
- Which of the shares a request names are active, bound to the Provider and selected for probes: an input set, fixed when the batch begins
- Share names, log identifiers, completion time stamps and journal sequence numbers in usage logs, and the token counts of results, which are always zero
- `redact_provider_test_error`: any idempotent function
- Usage log pruning, compaction and restart: any outside change of the store, at any time
- ImageVerifier.ReadExact: read errors other than an early end of file end the lookup with an error and are not modelled
- Request details taken from the audit log other than the stream status, and of the terminal event its stage, error code and error class
- Installation registration before a claim, control-plane completion after it, and the share bookkeeping of a failed claim: when one of them fails, the call ends there, which is a cancellation of the model
- The router itself: what it answers and shows is an input; a definite refusal is taken to mean that the claim was not applied
- `mark_client_tunnel_claim_skipped`, leases and other changes of the tunnel status: a configuration change that keeps the described intent
- Flow stores of the device logins (who may poll upstream, retry delays): an importer may appear at any time with any account; bounded starts that refuse a login are starts that do not happen
- The reading after a failed configuration write: a late failure (`StoredLate`) may come at any time; the program also reads the file back and then reports success if it matches, so here it needs that reading to fail as well (`src/state.rs:678-708`), so the model allows more
- A blocking write that goes on after its task was dropped: it takes effect at the drop or not at all, not later
- Account merging inside `finish_login`: one import is one account write
- HTTP fetch, body limits and JSON parsing of a release; the cache file is missing, malformed or a record
- A leading plus sign in `str::parse::<u64>`: neither version parser can pass one on
- The second copy of header finalization for owned names, which differs only in who owns the strings
- White space and case mapping act on characters as `str::trim` and ASCII case folding do; no other Unicode normalisation takes place
