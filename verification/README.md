# Verified model of the node agent's durable core

The agent counts traffic and access on a proxy node, keeps both in a local SQLite database, sends them to a control
server until they are acknowledged, applies signed configurations and user snapshots to an Xray core, and carries out
signed maintenance commands. This project models what is counted, stored, sent, acknowledged, applied and rolled back,
and proves what holds of it over every run.

`dafny verify dfyconfig.toml` checks everything.

## How the model is built

- State that the agent changes in place is a class (`TrafficStore`, `AccessStore`, `ConfigStore`, `UserStore`,
  `Runtime`, `Client`, `Manager`, `Installer`, `File`). Each method is proved equal to a step of a value-level
  transition function, and the theorems quantify over every sequence of those steps.
- A database transaction commits as a whole or changes nothing; a `fails` argument is any database error in it. A crash
  loses only memory. The outcomes of starting and closing a core, sending, writing markers, renaming files and reading
  the clock are arguments.
- SHA-256, JSON, Ed25519, base64, UUID, IP and host parsing, and case mapping are function-typed arguments, so every
  result holds for all of them.
- 64-bit arithmetic is written out: the accumulator's SQL sums (which turn into floating point past 2^63 - 1 and then
  cannot be read back as integers), the saturating access sums, the doubling of the backoff. Unsigned parameters with
  the high bit set are refused by the database driver, and so they are here.
- Stored times are the trimmed RFC3339Nano text that SQLite compares, with the instant it denotes.

| module | subject |
|---|---|
| `Ordering`, `Text`, `Selections` | text and key order, filtering, `ORDER BY`; trimming, decimal numbers, splitting, the secret reference grammar |
| `Stamps` | RFC3339Nano text order against time order |
| `CanonicalForms` | sorting before hashing; secret bundles |
| `WriteAheadLog` | the pending-batch tables: insert, delete on exact match, prune |
| `TrafficLog`, `TrafficWindows`, `ExactlyOnce` | the traffic ledger; the windows behind its rows; the two-party reporting protocol, its safety and its progress |
| `AccessRows`, `AccessLog`, `AccessLedger` | merging access observations; draining, acknowledging and pruning them; the ledger of their counters |
| `DesiredConfig`, `ConfigMeaning` | configuration validation, node building, secret references; the same by table and by meaning |
| `ConfigRevisions`, `ControlSession` | the revision tables; the session that drives them |
| `XrayRuntime` | applying configurations and users with rollback |
| `UserSnapshots` | user snapshots on disk and through the secret store, with a crash at any point |
| `AgentProcess` | sessions, runtime, disk and restarts together: what a success says about the core, what a restart brings back |
| `Maintenance`, `ReleaseInstall` | replay markers; versions, download, binary swap |
| `Reconnect` | reconnect backoff |

## Where the code falls short of its promise

- Text order of stamps is not time order: within one second a shorter fraction that is a prefix of a longer one sorts
  after it (`Stamps.TextOrder`, exact). One consequence is that merging two valid access observations can give a row
  its own validation rejects (`AccessRows.MergeCanBreak`; `AccessRows.MergeValidExactly` gives the exact condition).
- Traffic sums do not saturate. Once a counter passes 2^63 - 1, no batch is ever drained again
  (`TrafficLog.OverflowBlocksDraining`); `TrafficLog.TrafficLedger` says exactly when that happens.
- A failed clean-up delete in `MarkConfigApplied` is ignored. Reports stay true in every continuation if and only if it
  had nothing to delete (`ControlSession.FirstFailedCleanupExactly`, `ControlSession.ReportsStayTrueExactly`);
  `ControlSession.FailedCleanupMisreports` is a run that reports a version that is not applied.
- A configuration delivered again is reported as a success without a look at the runtime. Exactly when a success means a
  running core is `AgentProcess.NextSuccessRunsExactly`; `AgentProcess.SuccessWithoutCore` is a run that reports one with
  no core. The runtime and the durable state differ exactly from a lost mark to the next restart or marked configuration
  (`AgentProcess.EveryRunPartedExactly`); `AgentProcess.SuccessForAnotherCore` is a run that reports in between.
- A snapshot that puts the stored revision on other users can leave a mix of two snapshots
  (`UserSnapshots.SameRevisionMixes`); the exact condition is `UserSnapshots.StopsKeepViewExactly`. Sending a snapshot
  again is safe.
- `RequeueAccess` panics on a nonempty list exactly when more than 20000 items are already pending
  (`XrayRuntime.RequeueInRangeExactly`). One closed core leaves at most 20000, the limit of its recorder
  (third_party/ppanel-node/core/app/dispatcher/access.go:23), so it takes two closed between a collect and its requeue
  (`XrayRuntime.RequeueAfterCollectExactly`, `XrayRuntime.RequeueCanCrash`).
- Rolling back regroups users by the clock, and a clock that steps back refuses the stored users exactly when one of them
  comes back from expiry with an unfit credential (`XrayRuntime.RegroupsExactly`, `XrayRuntime.StepBackRefusesRollback`).
- Replay protection survives clocks that step back by up to half of the marker life less the validity window, and no
  more (`Maintenance.NoReplay`, `Maintenance.LargerStepBackReplays`).
- An uninstall that fails may already have deleted the markers, and the manager goes on: a marked command sent again is
  acted on again exactly then (`Maintenance.ReplaysExactly`, `Maintenance.FailedUninstallReplays`).

## Model

| member | source | states |
|---|---|---|
| `Stamps.TextOrder` | internal/state/store.go:371-389 | for every two UTC stamps, text order equals time order, except reversed when they share a second and one trimmed fraction is a proper prefix of the other; equal text means equal instant |
| `Stamps.EqualWidthsOrderByTime` | internal/state/store.go:371-389 | equal fraction widths suffice for text order to be time order (section 5.1 of RFC 3339) |
| `Stamps.WholeSecondSortsLast` | internal/state/store.go:478 | a whole second sorts after every later moment of the same second |
| `Stamps.StoredOrder` | internal/state/access.go:52-55 | the stored form of any two stamps is comparable, and out of order exactly when reversed |
| `CanonicalForms.SortSlice` | internal/protocol/wire.go:145-165 | sorting a copy gives a permutation in nondecreasing key order |
| `CanonicalForms.SortResultUnique` | internal/protocol/wire.go:145-165 | with keys that tell items apart, any two sorted permutations are the same list |
| `CanonicalForms.CanonicalExactlyWhenKeysSeparate` | internal/protocol/wire.go:201-214 | the sorted form depends only on the multiset of items if and only if no two different items share a key |
| `CanonicalForms.CanonicalSecretMaterials` | internal/protocol/secrets.go:92-107 | accepts exactly complete, duplicate-free bundles and returns a permutation with strictly increasing references |
| `CanonicalForms.ScanSorted` | internal/protocol/secrets.go:95-105 | comparing neighbours of a sorted list finds every duplicate |
| `CanonicalForms.AcceptableIsOrderFree` | internal/protocol/secrets.go:92-107 | acceptance does not depend on the order of the bundle |
| `CanonicalForms.SecretCanonicalFormUnique` | internal/protocol/secrets.go:92-107 | every ordering of a bundle has the same canonical list, so canonicalising is idempotent |
| `WriteAheadLog.InsertKeepsOrder` | internal/state/store.go:474-496 | a new row lands in (created_at, sequence) order |
| `WriteAheadLog.BeforeExactly` | internal/state/store.go:474-480 | a row goes before another exactly if its time has the smaller text, or the same and it was drained first |
| `WriteAheadLog.DeleteMember` | internal/state/store.go:498-511 | acknowledging removes exactly the rows matching boot, sequence and hash |
| `WriteAheadLog.DeleteRemovesNumber` | internal/state/store.go:498-511 | an exact match removes that one number; anything else removes nothing |
| `WriteAheadLog.Pending` | internal/state/store.go:474-496 | resending takes the oldest rows, exactly as many as the limit allows, an out-of-range limit counting as 100 |
| `WriteAheadLog.NewestIsLongestFit` | internal/state/access.go:235-266 | pruning keeps a suffix that fits both limits, and a suffix fits if and only if it is no longer |
| `TrafficLog.UpsertAllAdds` | internal/state/store.go:362-396 | one window adds to each cell the exact total of its deltas, or leaves it inexact past 2^63 - 1 |
| `TrafficLog.StepKeepsValid` | internal/state/store.go:362-511 | every transaction keeps the ledger balanced, every drained batch either pending or acknowledged and never both, and the log made of drained batches with distinct numbers |
| `TrafficLog.StepKeepsSettled` | internal/state/store.go:398-511 | a drain makes one new number pending, and only a committed acknowledgement moves a pending number over |
| `TrafficLog.RunKeepsValid` | internal/state/store.go:362-511 | every reachable ledger is valid |
| `TrafficLog.TrafficLedger` | internal/state/store.go:362-511 | in every reachable state, for every key and direction, bytes accepted equal accumulator plus pending batches plus batches whose acknowledgement committed, every drained batch being in exactly one of the two; the cell is inexact exactly when what is not drained exceeds 2^63 - 1 |
| `TrafficLog.RejectedStepChangesNothing` | internal/state/store.go:498-511 | failed transactions and mismatched or repeated acknowledgements change nothing |
| `TrafficLog.WindowCommitsExactly` | internal/state/store.go:362-396 | a window commits exactly if its times are set and ordered and, unless it is empty, every delta has an identity and fits the columns and nothing fails |
| `TrafficLog.WindowAdds` | internal/state/store.go:362-396 | a window that commits adds each delta to its own key and touches nothing else |
| `TrafficLog.DrainCommitsExactly` | internal/state/store.go:398-472 | a drain fails exactly on a fault or an inexact counter, and without rows does nothing |
| `TrafficLog.DrainMovesRows` | internal/state/store.go:398-472 | all rows move into one new batch under the next number, with an item for each row and its own hash, filed by one new row of the log |
| `TrafficLog.AcknowledgeSettlesExactly` | internal/state/store.go:498-511 | takes exactly on a row with that boot, number and hash, and deletes such rows only |
| `TrafficLog.OverflowBlocksDraining` | internal/state/store.go:386-387 | after an overflow no later run drains anything |
| `TrafficLog.DrainedIntervalCoversRows` | internal/state/store.go:398-472 | in every reachable state a batch's interval has start before end and covers every drained row's start; it covers every end exactly if one is after Go's zero time or the clock is past all of them |
| `TrafficWindows.EveryRowSpansItsWindows` | internal/state/store.go:382-389 | in every reachable state a key has a row exactly if a window with bytes for it was committed since the last drain, and the row runs from the first start to the last end of these windows in text order |
| `TrafficWindows.RowCoversItsWindows` | internal/state/store.go:382-389 | while the windows' stamps compare by time, the row covers each of them |
| `TrafficWindows.DrainedIntervalExactly` | internal/state/store.go:410-451 | a batch starts exactly at the earliest start and ends exactly at the latest end of its rows, with the clock reading and the one second before the end as the only exceptions |
| `TrafficLog.TrafficPayloadSHA256` | internal/protocol/wire.go:145-165 | the hash is the digest of a sorted permutation of the items with the hash field cleared |
| `TrafficLog.PayloadHashIgnoresItemOrder` | internal/protocol/wire.go:145-165 | reordering items, or hashing a hashed batch again, gives the same hash |
| `TrafficLog.DrainedHash` | internal/state/store.go:398-472 | a drained batch is already in canonical order and its keys tell its items apart |
| `TrafficLog.TrafficStore.AddTrafficWindow` | internal/state/store.go:362-396 | commits all deltas or none, exactly as the ledger step says |
| `TrafficLog.TrafficStore.ScanRows` | internal/state/store.go:404-433 | one pass yields the items and the extreme times, or fails on an inexact cell |
| `TrafficLog.TrafficStore.SelectRows` | internal/state/store.go:404-433 | the scanned rows are all rows, in key order |
| `TrafficLog.TrafficStore.BuildBatch` | internal/state/store.go:398-472 | the next batch carries every row, the next number and its own hash; none if there are no rows |
| `TrafficLog.TrafficStore.HashDrained` | internal/state/store.go:452-455 | the hash put on a drained batch is the digest of the batch as built |
| `TrafficLog.TrafficStore.DrainTraffic` | internal/state/store.go:398-472 | moves the whole accumulator into one numbered batch, or changes nothing |
| `TrafficLog.TrafficStore.PendingTraffic` | internal/state/store.go:474-496 | returns the oldest pending batches in order |
| `TrafficLog.TrafficStore.AcknowledgeTraffic` | internal/state/store.go:498-511 | succeeds exactly on a match, and then deletes that batch only |
| `ExactlyOnce.EveryRunIsSound` | internal/control/client.go:603-640 | under loss, duplication, reordering, resending and restarts, only drained batches travel, and every acknowledged batch was counted by the server |
| `ExactlyOnce.ExactlyOnceAccounting` | internal/control/client.go:246-256 | server totals plus pending batches not yet counted plus accumulator equal all bytes accepted, for every key, direction and run |
| `ExactlyOnce.QuiescentTotalsAgree` | internal/control/client.go:603-640 | once accumulator and log are empty, the server's totals are the bytes accepted |
| `ExactlyOnce.RestartNamesNextBatch` | internal/control/client.go:616-627 | a restart loses nothing durable, and the next batch drained carries the new boot identity and the next number of the same count |
| `ExactlyOnce.OldestTravel` | internal/control/client.go:629-640 | each of the hundred oldest pending batches travels unless the connection breaks before it |
| `ExactlyOnce.AnswerSettles` | internal/control/client.go:246-256 | every answer that is not a refusal, counted now or before, leaves no row with that boot, number and hash and changes nothing else |
| `ExactlyOnce.EveryByteCanArrive` | internal/control/client.go:603-640 | from every reachable world with exact counters, even with everything under way lost, agent and server can go on to empty tables with every accepted byte counted |
| `AccessRows.SaturatingAdd` | internal/state/access.go:56-60 | the guarded sum is min(2^63 - 1, a + b), with no intermediate overflow |
| `AccessRows.ValidExactly` | internal/state/access.go:268-294 | what every field of an observation must be for it to be valid, and that nothing else is asked |
| `AccessRows.MergeValidExactly` | internal/state/access.go:45-61 | two valid observations merge to a valid row if and only if no out-of-order pair of stamps turns its interval round |
| `AccessRows.MergeInTimeOrder` | internal/state/access.go:45-61 | when stamps compare chronologically the merge is valid, active exactly without an end, from the earlier start to the later sighting |
| `AccessRows.MergeCanBreak` | internal/state/access.go:52-55 | a connection that opens and closes on a whole second and another within that second merge into an invalid row |
| `AccessRows.FoldIsCappedSum` | internal/state/access.go:56-60 | folding any list gives min(2^63 - 1, sum) bytes and min(2^31 - 1, sum) connections |
| `AccessRows.FoldIgnoresOrderAndGrouping` | internal/state/access.go:66-86 | those counters do not depend on order or on grouping into calls |
| `AccessRows.FoldSpans` | internal/state/access.go:45-61 | a row says who and where as the last observation, and runs from the first start to the last sighting in text order |
| `AccessRows.FoldEnds` | internal/state/access.go:54-55 | an open row has no end, a closed one ends at the last of the ends since it was last open |
| `AccessLog.RowsAreFolds` | internal/state/access.go:29-88 | after any adds each session's row is the fold of that session's observations |
| `AccessLog.SessionCountersAreCappedSums` | internal/state/access.go:29-88 | from empty, each session's counters are the capped sums of its own observations, and there is a row exactly if there is an observation |
| `AccessLog.DrainPartitions` | internal/state/access.go:90-188 | batch and remainder split the rows, the remainder is untouched, and all batch keys precede the rest |
| `AccessLog.DrainsToEmpty` | internal/state/access.go:90-188 | without adds, the accumulator is empty exactly from drain number ceil(n/1000) on |
| `AccessLog.EveryBatchAccounted` | internal/state/access.go:90-266 | over every run each drained batch is in exactly one of pending, acknowledged and pruned, and the log stays within its limits |
| `AccessLog.EveryLogWithinLimits` | internal/state/access.go:235-266 | in every run the pending batches, as they are encoded, are within the count and byte limits |
| `AccessLog.AddCommitsExactly` | internal/state/access.go:29-88 | adding commits exactly if there is nothing to add, or not too much, all of it valid and nothing fails |
| `AccessLog.DrainMovesFirstRows` | internal/state/access.go:90-188 | the first thousand rows become one new batch under the next number with its own hash, filed by one row, and of the log the newest that fit are kept |
| `AccessLog.AcknowledgeSettlesExactly` | internal/state/access.go:214-227 | takes exactly on a row with that boot, number and hash, and deletes such rows only |
| `AccessLog.EveryRowValid` | internal/state/access.go:29-188 | when the stamps used compare chronologically, every accumulator row and drained item is valid and active exactly without an end, and every drained batch's interval is nonempty and covers its items |
| `AccessLedger.AccessBytesLedger` | internal/state/access.go:29-188 | after any run, for every session and counter, drained batches plus the accumulator hold no more than was added, and exactly that if and only if the counter never ran into its limit between two drains |
| `AccessLedger.EveryRunBalanced` | internal/state/access.go:56-60 | after any run what was added equals drained plus accumulated plus exactly the excess over the limit cut off so far |
| `AccessLedger.RunTracked` | internal/state/access.go:29-188 | in every reachable state a row is the fold of the items added since its session was last drained |
| `AccessLedger.EveryRowSpansItsItems` | internal/state/access.go:45-61 | in every reachable state a session has a row exactly if something was added since its last drain, with the last item's labels, the first start and the last sighting |
| `AccessLedger.EveryRowEndsLast` | internal/state/access.go:54-55 | and, if closed, the last of the ends since it was last open |
| `AccessLog.DrainedIntervalCoversItems` | internal/state/access.go:135-158 | a batch of valid items has start before end and covers every start; it covers every last sighting exactly if one is after Go's zero time or the clock is past all of them |
| `AccessLog.DrainedIntervalExactly` | internal/state/access.go:135-158 | a batch of valid items starts exactly at the earliest start and ends exactly at the last sighting, with the clock reading and the one second before the end as the only exceptions |
| `AccessLog.AccessPayloadSHA256` | internal/protocol/wire.go:201-214 | the hash is the digest of a sorted permutation of the items with the hash field cleared |
| `AccessLog.PayloadHashIgnoresItemOrder` | internal/protocol/wire.go:201-214 | reordering items, or hashing a hashed batch again, gives the same hash |
| `AccessLog.DrainedHash` | internal/state/access.go:163-166 | a drained batch is already in canonical order |
| `AccessLog.AccessStore.MergeAll` | internal/state/access.go:29-88 | accepts exactly lists whose every item validates, and upserts them in order |
| `AccessLog.AccessStore.AddAccess` | internal/state/access.go:29-88 | commits all items or none |
| `AccessLog.AccessStore.ScanRows` | internal/state/access.go:105-142 | one pass yields the items with their earliest start and latest sighting |
| `AccessLog.AccessStore.SelectRows` | internal/state/access.go:96-145 | the scanned rows are the first thousand in key order |
| `AccessLog.AccessStore.BuildBatch` | internal/state/access.go:90-188 | the next batch carries those rows, the next number and its own hash |
| `AccessLog.AccessStore.DrainAccess` | internal/state/access.go:90-188 | moves those rows into one numbered batch and prunes the log, or changes nothing |
| `AccessLog.AccessStore.Prune` | internal/state/access.go:235-266 | the deleting loop with its running byte count ends at the longest suffix that fits |
| `AccessLog.AccessStore.AcknowledgeAccess` | internal/state/access.go:214-227 | succeeds exactly on a match, and then deletes that batch only |
| `DesiredConfig.ValidateDesiredConfig` | internal/protocol/protocol.go:143-191 | accepts exactly: header in range, distinct valid profiles, and inbounds with distinct identifiers and ports that fit the profile they name |
| `DesiredConfig.ValidateProfiles` | internal/protocol/protocol.go:151-162 | accepts exactly distinct valid profiles, and fills a table of them |
| `DesiredConfig.ValidateInbounds` | internal/protocol/protocol.go:163-189 | accepts exactly valid inbounds with distinct identifiers and listening ports |
| `DesiredConfig.TableAgreesWithScan` | internal/runtime/xray.go:594-601 | looking a profile up by scanning agrees with validation's table |
| `DesiredConfig.AcceptedInboundBuilds` | internal/runtime/xray.go:387-474 | building any inbound of an accepted configuration never dereferences a missing payload or indexes an empty list; it misses a profile exactly when a VMess inbound names an absent one |
| `DesiredConfig.NodesUseOnlyReferencedSecrets` | internal/runtime/xray.go:387-474 | two secret stores that agree on the listed references build the same nodes |
| `DesiredConfig.ReferencedSecretRefs` | internal/protocol/protocol.go:193-226 | lists every reference of the configuration, strictly increasing, so without duplicates |
| `ConfigMeaning.AdmittedExactly` | internal/protocol/protocol.go:297-439 | an inbound is admitted exactly if its only payload, its security, its carrier and its own fields fit its protocol, as one table for all protocols |
| `ConfigMeaning.ProfileAdmittedExactly` | internal/protocol/protocol.go:228-295 | a profile is admitted exactly if its only payload is its kind's, with fitting names, references, versions, and distinct short identifiers |
| `ConfigMeaning.AcceptedExactly` | internal/protocol/protocol.go:143-191 | a configuration is accepted exactly if its header fits, every profile and inbound is admitted on its own, and no identifier and no port key occurs twice |
| `ConfigMeaning.PortKeySeparates` | internal/protocol/protocol.go:176-184 | two inbounds conflict exactly if network, address and port agree |
| `ConfigMeaning.BuiltNodeSays` | internal/runtime/xray.go:387-474 | a built node has the inbound's fields, and certificate, keys and passwords from exactly the references that name them |
| `ConfigMeaning.BuildsExactlyWithItsSecrets` | internal/runtime/xray.go:387-474 | an accepted inbound's node is built exactly if the secrets it needs resolve, the server key fits, and no VMess inbound names an absent profile |
| `ConfigMeaning.ReferencedExactly` | internal/protocol/protocol.go:193-226 | the listed references are exactly the nonempty trimmed ones of profiles and inbounds |
| `ConfigRevisions.StepKeepsConsistent` | internal/state/store.go:241-335 | save, mark and reset keep: applied version 0 and no applied row, or one applied row with the applied version and hash; every received row is newer |
| `ConfigRevisions.StepKeepsAppliedRow` | internal/state/store.go:308-335 | even when the clean-up fails, the applied version's row is there, applied, with the applied hash |
| `ConfigRevisions.SavesExactly` | internal/state/store.go:267-306 | a save finds something to apply exactly for a received row or a newer version with an unused hash, whatever other rows there are, and nothing to do exactly for an applied row |
| `ConfigRevisions.SaveStores` | internal/state/store.go:299-305 | a newer version is stored as received beside the rows already there, and only then |
| `ConfigRevisions.MarkAppliesExactly` | internal/state/store.go:308-335 | marking needs the row with that hash, makes it the applied one, and leaves only newer applied rows beside it |
| `ConfigRevisions.ResetForgets` | internal/state/store.go:241-265 | a reset forgets what is applied, lets it be applied again, and keeps all other rows |
| `ConfigRevisions.FailedCleanupMattersExactly` | internal/state/store.go:333 | ignoring the clean-up error keeps the invariant if and only if there was nothing to delete |
| `ConfigRevisions.NothingToDoMeansAppliedExactly` | internal/state/store.go:278-290 | a save answers "nothing to do" only for the applied version and hash if and only if no other row is applied |
| `ConfigRevisions.RunKeepsConsistent` | internal/state/store.go:241-335 | the invariants hold along every run; without resets the applied version never falls |
| `ConfigRevisions.EveryRunConsistent` | internal/state/store.go:241-335 | from an empty database a row is applied if and only if it is the nonzero applied version, and received rows are newer |
| `ConfigRevisions.MarkAfterSaveRaises` | internal/state/store.go:267-335 | between resets, each mark that follows a true save strictly raises the applied version |
| `ConfigRevisions.ConfigStore.SaveDesiredConfig` | internal/state/store.go:267-306 | refuses stale versions and conflicting hashes, reports an applied repeat as nothing to do, else stores a received row |
| `ConfigRevisions.ConfigStore.MarkConfigApplied` | internal/state/store.go:308-335 | succeeds exactly if the row has that version and hash |
| `ConfigRevisions.ConfigStore.ResetAppliedRuntime` | internal/state/store.go:241-265 | puts the applied row back to received and zeroes the applied state |
| `ConfigRevisions.ConfigStore.AppliedConfig` | internal/state/store.go:337-355 | finds the row with the applied version and hash whenever the version is nonzero |
| `ControlSession.EveryRunSound` | internal/control/client.go:212-292 | in every run in which no clean-up fails with rows to delete, a success is reported only for the durable applied version and hash |
| `ControlSession.EveryRunGrounded` | internal/control/client.go:212-292 | in every run, whatever fails, every configuration given to the runtime was verified, addressed to this node and key, and had its bundle opened earlier in the same session |
| `ControlSession.DeliveryApplies` | internal/control/client.go:474-509 | from any state, bundle and delivery of a revision new to the tables, with nothing failing, end with it given to the runtime, applied and reported as a success |
| `ControlSession.RejectionIsReported` | internal/control/client.go:495-502 | if the runtime rejects it, that is reported, it stays received, and what is applied stays applied |
| `ControlSession.HandleConsistentExactly` | internal/state/store.go:308-335 | a message takes consistent tables to inconsistent ones if and only if its mark succeeds and its clean-up fails with a row to delete |
| `ControlSession.ReportsStayTrueExactly` | internal/control/client.go:474-509 | from any state a run reaches, reports stay true in every continuation if and only if they were so far, no other row is applied, and every received row is newer than the applied version |
| `ControlSession.FirstFailedCleanupExactly` | internal/state/store.go:333 | after the first clean-up of a run that fails, reports stay true in every continuation if and only if it had no row to delete |
| `ControlSession.OlderRowMisreports` | internal/state/store.go:267-290 | an older received row left behind makes a later report false even with every further clean-up working |
| `ControlSession.FailedCleanupMisreports` | internal/state/store.go:333 | a whole run of five messages with one failed clean-up reports success for a version that is not applied |
| `ControlSession.Client.ApplySecretEnvelope` | internal/control/client.go:511-537 | records a bundle version exactly when it is for this node and opens |
| `ControlSession.Client.Verify` | internal/protocol/signing.go:39-59 | accepts exactly the accepted configurations whose digest is the one given and whose signature holds |
| `ControlSession.Client.ApplyDesiredConfig` | internal/control/client.go:474-509 | save, apply, mark, report in that order, each step only after the one before |
| `AgentProcess.HappensMatchedExactly` | internal/control/client.go:491-508 | after any step from any good state the stored configuration of the runtime is the durable applied one if and only if the step is a restart or a configuration taken and marked, or it was so before and no mark is lost |
| `AgentProcess.EveryRunPartedExactly` | cmd/iepl-agent/main.go:81-86 | over every run the two differ if and only if a mark was lost and neither a restart nor a configuration taken and marked came since |
| `AgentProcess.SuccessRunsExactly` | internal/control/client.go:491-508 | a reported success is for a running core of that revision if and only if the runtime was just given it or such a core ran already |
| `AgentProcess.RedeliverySucceeds` | internal/state/store.go:278-290 | the applied revision delivered again is reported as a success and leaves the runtime as it is |
| `AgentProcess.NextSuccessRunsExactly` | internal/control/client.go:491-508 | every next success is for a running core of its revision if and only if nothing is applied or a core of the applied revision runs |
| `AgentProcess.EverySuccessMatchedExactly` | internal/control/client.go:474-509 | in every run, while no other row is applied, a success is for the stored configuration if and only if the runtime was just given it or no lost mark is unhealed, and a core of it runs exactly if it was just given or one ran before |
| `AgentProcess.EveryRunConsistent` | internal/state/store.go:267-335 | no other row is applied in any run in which no clean-up leaves rows behind |
| `AgentProcess.EveryDiskMeansCommitted` | internal/control/client.go:511-573 | through sessions, bundles written to the same secret store, crashes and restarts, the disk resolves to the last committed user snapshot |
| `AgentProcess.EveryRestartRunsWhatIsDurable` | cmd/iepl-agent/main.go:81-163 | in every run, a restart that reports no error runs the durable applied configuration with exactly the last committed users; one that does leaves nothing applied |
| `AgentProcess.RestartCompletesExactly` | cmd/iepl-agent/main.go:122-163 | in every run, a restart reports no error exactly if nothing is applied, or the stored revision builds and starts and every committed user is placed in it; committed users can always be read back |
| `AgentProcess.DeliveryRuns` | internal/control/client.go:474-509 | from any good world, a revision new to the tables that the runtime takes ends durably applied, running and reported |
| `AgentProcess.SnapshotTakesEffect` | internal/control/client.go:539-573 | a newer snapshot that runtime and disk take ends as the users of the core and as what the disk means |
| `AgentProcess.SuccessWithoutCore` | internal/control/client.go:491-508 | a whole run from the start that ends in a reported success while no core runs |
| `AgentProcess.SuccessForAnotherCore` | internal/control/client.go:491-508 | a whole run from the start that ends in a reported success while the core runs another configuration, whose mark was lost |
| `XrayRuntime.PanelUsersByInbound` | internal/runtime/xray.go:517-547 | succeeds exactly if every user names an enabled inbound and every current one has a fitting credential; each group lists its inbound's current users in order |
| `XrayRuntime.EnabledInbounds` | internal/runtime/xray.go:517-523 | the table holds exactly the enabled inbounds |
| `XrayRuntime.UsersAvailableInConfig` | internal/runtime/xray.go:88-102 | keeps exactly the users of enabled inbounds, each as often as before and in order |
| `XrayRuntime.FindsLastEnabled` | internal/runtime/xray.go:517-523 | the table holds the last enabled inbound of each identifier, and none exactly if there is none |
| `XrayRuntime.GroupsExactly` | internal/runtime/xray.go:526-540 | grouping succeeds exactly if each user names an enabled inbound and, if current, has a credential that fits it |
| `XrayRuntime.GroupIsSelection` | internal/runtime/xray.go:526-547 | a group holds exactly its inbound's current users in order, with their identity, credential, device limit and speed rounded up to megabits |
| `XrayRuntime.CredentialKinds` | internal/runtime/xray.go:549-565 | a UUID, a key of the cipher's length or its base64 text, or a password of 8 to 255 bytes, by protocol |
| `XrayRuntime.BuildsExactly` | internal/runtime/xray.go:372-385 | a configuration can be built exactly if every enabled inbound gets its node |
| `XrayRuntime.ConfigTakenExactly` | internal/runtime/xray.go:45-86 | applying succeeds exactly if the configuration is accepted and built, nothing outside fails, and every current stored user it keeps fits |
| `XrayRuntime.UsersAcceptedExactly` | internal/runtime/xray.go:104-142 | users are taken exactly if nodes build, nothing fails, all are placed, and every current one fits |
| `XrayRuntime.GroupsLater` | internal/runtime/xray.go:517-547 | what groups now groups at every later time |
| `XrayRuntime.ClockStepBackCanRefuse` | internal/runtime/xray.go:517-547 | a user that groups once expired can be refused one moment earlier |
| `XrayRuntime.RegroupsExactly` | internal/runtime/xray.go:517-547 | users that group at one clock reading group at another if and only if no user with an unfit credential comes back from expiry |
| `XrayRuntime.NoCoreAfterUsersExactly` | internal/runtime/xray.go:104-142 | for any clock, exactly when applying users leaves no core: the checks pass, the new core does not start, and the restart fails or is refused by an unfit stored user back from expiry |
| `XrayRuntime.NoCoreAfterConfigExactly` | internal/runtime/xray.go:45-86 | for any clock, exactly when applying a configuration leaves no core |
| `XrayRuntime.StepBackRefusesRollback` | internal/runtime/xray.go:121-141 | a run whose rollback is refused by its own users because the clock went back one second |
| `XrayRuntime.EveryRunConsistent` | internal/runtime/xray.go:45-142 | whatever starts and closes fail, a held core was started from exactly the stored configuration and users, and every stored user names an enabled inbound of it |
| `XrayRuntime.RollbackNeverRefusedByItsData` | internal/runtime/xray.go:45-142 | with a nondecreasing clock the stored users always regroup, so only an outside failure can refuse a rollback |
| `XrayRuntime.FailedConfigRollsBack` | internal/runtime/xray.go:45-86 | a configuration takes over whole or the stored pair stays; no core is left only if there was none, the restart failed or the stored nodes no longer build |
| `XrayRuntime.FailedUsersRollBack` | internal/runtime/xray.go:104-142 | users take over whole or the stored ones stay; no core is left only if the restart failed |
| `XrayRuntime.RequeueInRangeExactly` | internal/runtime/xray.go:292-302 | the slice is in range if and only if nothing is requeued or at most 20000 items are pending; then the queue keeps its head and takes the newest items up to 20000 |
| `XrayRuntime.RequeueCanCrash` | internal/runtime/xray.go:292-302 | a run in which two cores closed after a collect, each leaving at most 20000 samples, put the requeue of one item out of range |
| `XrayRuntime.RequeueAfterCollectExactly` | internal/control/client.go:642-663 | requeueing what a collect returned is out of range if and only if the cores closed in between left more than 20000 samples |
| `XrayRuntime.OneCloseIsSafe` | internal/runtime/xray.go:63-71 | one closed core, leaving no more than a recorder holds, is not enough |
| `XrayRuntime.Runtime.StartCore` | internal/runtime/xray.go:476-515 | a core starts exactly when its users group and nothing outside fails |
| `XrayRuntime.Runtime.ApplyConfig` | internal/runtime/xray.go:45-86 | keeps the runtime consistent; on success the core runs the new configuration with exactly the stored users of its enabled inbounds, on failure the stored pair is unchanged |
| `XrayRuntime.Runtime.SwitchTo` | internal/runtime/xray.go:72-85 | starts the new pair, or restarts the stored one |
| `XrayRuntime.Runtime.ApplyUsers` | internal/runtime/xray.go:104-142 | keeps the runtime consistent; the stored users change exactly on success |
| `XrayRuntime.Runtime.SwitchUsers` | internal/runtime/xray.go:121-141 | starts a core from the new users, or one from the stored users |
| `XrayRuntime.Runtime.RequeueAccess` | internal/runtime/xray.go:292-302 | crashes exactly when the slice is out of range, else queues as specified |
| `UserSnapshots.NormalizeCredentialKind` | internal/control/client.go:589-601 | the loop leaves a nonempty name of letters, digits, dots, dashes and underscores |
| `UserSnapshots.NormalizedKindExactly` | internal/control/client.go:589-601 | exactly the name characters of the lowered, trimmed kind, in order, or a stand-in if there are none |
| `UserSnapshots.RefInjective` | internal/control/client.go:561-564 | equal references have equal kind, inbound, subscriber and revision |
| `UserSnapshots.RefAdmittedExactly` | internal/secretstore/store.go:69-80 | the secret store's grammar admits a reference exactly if the kind starts with a letter and the subscriber is not negative |
| `UserSnapshots.CanPutExactly` | internal/secretstore/store.go:69-72 | a credential can be stored exactly if its normalized kind starts with a letter, its subscriber is not negative, and its value is neither empty nor over a mebibyte |
| `UserSnapshots.OldSnapshotSurvivesPutsExactly` | internal/control/client.go:561-568 | the stored snapshot survives every number of puts if and only if no put changes a secret a stored row points at |
| `UserSnapshots.StopsKeepViewExactly` | internal/control/client.go:561-568 | an attempt may stop after any put: the stored snapshot survives all of these stops if and only if no put the loop reaches changes a secret a stored row points at |
| `UserSnapshots.FreshRevisionClobbersNothing` | internal/control/client.go:561-568 | a revision no row carries changes no such secret |
| `UserSnapshots.ResendClobbersNothing` | internal/control/client.go:561-568 | sending the stored snapshot again changes no such secret |
| `UserSnapshots.CommittedView` | internal/state/store.go:38-77 | after the transaction the rows resolve to exactly the snapshot's users |
| `UserSnapshots.EveryCrashPointMeansOneSnapshot` | internal/control/client.go:539-573 | at every crash point of every run, resends, resets and other secrets included, the disk resolves to one complete snapshot, the last one committed, as long as its revision is not put on other users and the other secrets are not under users' references |
| `UserSnapshots.EveryRestartRestoresLastCommitted` | cmd/iepl-agent/main.go:139-163 | a restart at any point of such a run restores exactly the last committed snapshot's users |
| `UserSnapshots.SameRevisionMixes` | internal/control/client.go:561-568 | a run of two snapshots of the same users under one revision that stops after the first secret of the second leaves the disk meaning neither |
| `UserSnapshots.PutKeepsViewExactly` | internal/control/client.go:527-535 | putting any secret keeps the stored snapshot if and only if no stored row points at it or the value is the one there |
| `UserSnapshots.RestoredIsSortedSnapshot` | internal/state/store.go:79-97 | reading the rows in order and resolving them gives the snapshot's users, sorted |
| `UserSnapshots.UserStore.ReplaceUsers` | internal/state/store.go:38-77 | replaces all rows or none; stale revisions fail and equal ones change nothing |
| `UserSnapshots.UserStore.PutSecrets` | internal/control/client.go:561-568 | stores credentials in order up to the first failure, and rewrites values to references |
| `UserSnapshots.UserStore.ApplyUserSnapshot` | internal/control/client.go:539-573 | runtime first, then secrets, then rows; success is reported exactly as SnapshotSucceedsExactly says, and then the applied revision is the snapshot's |
| `UserSnapshots.SnapshotSucceedsExactly` | internal/control/client.go:552-573 | success exactly if runtime and store take it, within the limits, and the revision is the applied one, or newer with rows that can be inserted; a resend succeeds whatever its rows, a stale revision never |
| `UserSnapshots.UserStore.ResolveStoredUsers` | cmd/iepl-agent/main.go:153-163 | succeeds exactly if every row resolves, and returns the resolved users |
| `UserSnapshots.UserStore.RestoreUsers` | cmd/iepl-agent/main.go:139-151 | restores exactly if every row resolves, and then the users of the snapshot the disk means, in (inbound, subscriber) order |
| `Maintenance.VerifiedExpiresSoon` | internal/protocol/maintenance.go:55-122 | a command verified at t expires within 5 min 30 s of t |
| `Maintenance.VerifiesExactly` | internal/protocol/maintenance.go:98-122 | a genuine command verifies exactly from half a minute before issue until before expiry, any other never |
| `Maintenance.CommandNeeds` | internal/protocol/maintenance.go:55-77 | an update needs a release version, a check and an uninstall no target, all a window of at most five minutes |
| `Maintenance.ProcessExactly` | internal/maintenance/manager.go:171-240 | a verified command without marker is acted on, an uninstall only once marked, with exactly the markers then left; whatever else comes changes nothing |
| `Maintenance.CleanupExactly` | internal/maintenance/manager.go:646-657 | exactly the markers older than seven days that can be deleted go |
| `Maintenance.LaterActionExpiresLater` | internal/maintenance/manager.go:150-240 | a command acted on under an identifier already marked must expire days after the first one, for any clock skew, unless a failed uninstall deleted the marker |
| `Maintenance.NoReplay` | internal/maintenance/manager.go:180-240 | once a command's marker is written no later step of any run acts on that command, for a nondecreasing clock and for every skew up to the bound, unless a failed uninstall deletes the marker |
| `Maintenance.ReplaysExactly` | internal/maintenance/manager.go:180-240 | a marked command sent again, or another early enough one under its identifier, is acted on if and only if an uninstall failed in between after deleting the marker |
| `Maintenance.FailedUninstallReplays` | internal/maintenance/manager.go:562-568 | with the clock standing still, an uninstall that fails after deleting the markers lets an update run twice |
| `Maintenance.LargerStepBackReplays` | internal/maintenance/manager.go:646-657 | one nanosecond beyond the bound a replay exists |
| `Maintenance.Manager.ProcessRequest` | internal/maintenance/manager.go:150-240 | acts exactly on fresh verified commands, an update before its marker and an uninstall after; a failed uninstall may lose any markers and the manager goes on |
| `Maintenance.Manager.CleanupProcessed` | internal/maintenance/manager.go:646-657 | removes only markers older than seven days |
| `ReleaseInstall.ParseVersion` | internal/maintenance/controller.go:249-267 | parses exactly three nonnegative components after trimming, a leading v and a suffix |
| `ReleaseInstall.VersionNewer` | internal/maintenance/controller.go:230-242 | true exactly if both parse and the first is above |
| `ReleaseInstall.HigherComponent` | internal/maintenance/controller.go:236-241 | the first differing component decides |
| `ReleaseInstall.NewerIsStrictOrder` | internal/maintenance/controller.go:230-242 | irreflexive, transitive and asymmetric, total on parseable versions up to equal numbers |
| `ReleaseInstall.VersionRoundTrip` | internal/maintenance/controller.go:249-267 | a release name parses back to its three numbers |
| `ReleaseInstall.SuffixIgnored` | internal/maintenance/controller.go:249-267 | a suffix from minus or plus on does not matter |
| `ReleaseInstall.ParsesExactly` | internal/maintenance/controller.go:249-267 | a version parses exactly if it has three parts that are numbers without a minus sign, and to these |
| `ReleaseInstall.ReleaseNames` | internal/maintenance/controller.go:244-247 | names of releases start with v, and a text without it is none |
| `ReleaseInstall.VersionsOnlyRise` | internal/maintenance/manager.go:214-240 | over any run of updates the recorded version stays or becomes newer |
| `ReleaseInstall.VersionsNeverReturn` | internal/maintenance/manager.go:214-240 | a version once left is never recorded again |
| `ReleaseInstall.Downloader.DownloadOnce` | internal/maintenance/manager.go:435-461 | succeeds exactly on a whole body within the limit; the digest is of the bytes in the file |
| `ReleaseInstall.RetryableExactly` | internal/maintenance/manager.go:463-472 | another attempt is made exactly after timeouts, too many requests, server errors and failures without an answer, until cancelled |
| `ReleaseInstall.Downloader.DownloadToFile` | internal/maintenance/manager.go:408-433 | succeeds exactly if one of three attempts delivers after retryable failures; the file holds only that attempt's bytes, and they are the bytes hashed |
| `ReleaseInstall.Installer.FetchRelease` | internal/maintenance/manager.go:242-291 | yields a binary exactly if a delivered body has the listed checksum |
| `ReleaseInstall.Installer.InstallRelease` | internal/maintenance/manager.go:242-321 | succeeds exactly if no step fails, and then runs a delivered binary with the listed checksum, the old one set aside; on error the old binary is in place if moving back works |
| `ReleaseInstall.Installer.InstallsExactly` | internal/maintenance/manager.go:242-321 | an installation succeeds exactly if one of three attempts brings the listed body after failures that may pass, and no step around it fails |
| `ReleaseInstall.Installer.Update` | internal/maintenance/manager.go:214-240 | the recorded version changes only to a newer one, after a recorded success |
| `ReleaseInstall.Installer.ProcessUpdates` | internal/maintenance/manager.go:122-148 | over any run of requests the recorded versions only rise; if rollbacks and records succeed, a run that ends on its first version ends on its first binary |
| `Reconnect.ScheduleDoubles` | internal/control/client.go:103-112 | wrap-around included, the next delay is twice the wait, capped |
| `Reconnect.BackoffDoubles` | internal/control/client.go:103-112 | min(max, min * 2^k) doubles and stays within bounds |
| `Reconnect.Run` | internal/control/client.go:79-101 | the wait after each session is min(max, min * 2^k), k sessions after the last established one or the start |
| `Reconnect.StreakExactly` | internal/control/client.go:79-101 | the count reaches back exactly to the last established session, or to the first if none was |
| `Reconnect.BackoffReachesMaximum` | internal/control/client.go:103-112 | long enough without a session every wait is the maximum |

## Left out

- The server's side of traffic reporting is an assumed partner: it counts a (boot, sequence, hash) the first time only.
- Counters inside a core that is closed are not collected, and deltas whose storing failed are not requeued; the traffic ledger starts at `AddTrafficWindow`.
- A core whose close failed in `ApplyConfig` stays held and counts as running.
- Sequence counters are unbounded; times outside years 0 to 9999 have no stamp.
- Secret files are named by the SHA-256 of their reference; names are taken not to collide, so secrets are keyed by reference.
- A marker's modification time is taken to be the clock reading at its write.
- Validation errors are a boolean: which error comes first, and its text, are not modelled.
- Configuration fields no modelled check or build reads (generation time, routing, display names, spiderX) are dropped.
- Speed limits are rounded up over exact rationals after 64-bit wrap-around; floating-point rounding is not modelled.
- Host names, IP addresses, UUIDs, base64 and the version pattern of commands are abstract predicates.
- The text form of checksum lists, HTTP, the temporary file's name and mode, and process re-execution.
- Disconnecting stale users, online users, heartbeats and host metrics: sampling and calls into the core, easy members only.
- WebSocket dialing, TLS, tickers, goroutine scheduling, deadlines, SQL and file-system internals.
- Identity, enrollment and command-line configuration; service control, NTP, uninstall deletions other than the markers, update checks, request and result files.
- Maintenance.NoReplay: speaks of the same command; another command that reuses an identifier is covered by LaterActionExpiresLater, which bounds when it could act, and by ReplaysExactly.
- Maintenance.Manager.ProcessRequest: a marker whose write fails is taken not to exist; one left half-written only makes the manager act less.
- ControlSession.EveryRunSound: excludes a failed clean-up with rows to delete, because the claim is false after one; ReportsStayTrueExactly is the exact condition.
- UserSnapshots.EveryCrashPointMeansOneSnapshot: excludes other users under the last committed revision, and other secrets under users' references, because the claim is false with them; StopsKeepViewExactly and PutKeepsViewExactly are the exact conditions.
- AgentProcess.EverySuccessMatchedExactly: speaks of states without another applied row, because NothingToDoMeansAppliedExactly shows a repeat is otherwise for another revision.
- A restart that does not come up changes nothing durable and is no event; what the secret store resolves while nodes are built is an argument of each event.
