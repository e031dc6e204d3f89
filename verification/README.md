# Codex Remote Bridge: models and proofs

The Bridge lets a local Codex work on a remote executor. This project models the stateful engines
that this rests on, and the text formats that cross between the two sides, in Dafny, and proves
what they guarantee. `dafny verify dfyconfig.toml` checks everything.

How the models are built:

- Files on disk are values that change by atomic steps. In the Workbench transaction every step may
  be the last (the process dies) or fail (the call throws, with or without effect), chosen freely;
  a restore and an enable therefore run against every crash point. SHA-256 is injective; what a
  released extension version computes from file contents is an arbitrary `Extension`.
- Objects whose methods update fields are classes: `Installation`, `OperationLedger` with its shared
  entries, `BoundedTaskLog`, `BackgroundTask`, `RemoteBackgroundTasks`, `Request`, `ByteTail`,
  `ChunkTail`. Each method is proved against a function of the old state or against a ghost
  history, and the guarantees are proved about those.
- Protocols between processes (execute and recover, the handoff claim, the serialised conversation
  claims, the deferred event queue) are state machines with one step per message, await or
  file-system call; invariants are proved for every run.
- Promises appear as events that settle them, clocks as parameters, callbacks as the order in which
  they arrive.
- Strings in `ResourceUri`, `ShellQuoting` and `LinkProjection` are well-formed Unicode; lengths the
  code limits are counted in UTF-16 units. `WorkspacePatch` works on UTF-16 units as such.

Some results go against what one would expect, and are stated exactly:

- `WorkbenchDrop.BlindRollbackThenRestore`: a rollback that cannot read the bundle treats it as not
  patched and can leave the patched bundle over the original product.json; `RollBack` says exactly
  when. The originals can still be restored.
- `WorkbenchDrop.ClearingCutShort`: a crash while clearing, after a backup went and before the journal
  did, leaves a disk on which enable and restore refuse for ever.
- `HandoffClaim.ThirdContenderBreaksIt`: the claim file excludes two processes but not three.
- `HandoffClaim.ReleaseIsLost`: of two processes, one can put the other's claim back after its release,
  and then neither can claim again.
- `OverlappingStarts.OverlappingStartsBothRun`: two overlapping starts of one background task both run
  it, and the table loses the first.
- `ExecuteProtocol.RecoveryIgnoresParameters`: `resultStatus` asks by key alone, so a call whose own
  request never arrived can be answered with the result of other parameters under the same key;
  `ResolvedCallsRanTheirOwnParameters` says for which calls that cannot happen.
- `RequestClosure.UnreadableFrameHidesTheDoubt`: an unreadable frame ends a request with
  PROTOCOL_MISMATCH even when its side effect is in doubt, and that starts no recovery.
- `ResourceUri.RoundTripsUnlessRootIsDot`: an identity with root id `.` or `..` can be printed but not
  read back.
- `BackgroundTasks.RemoteBackgroundTasks.MakeCapacity`: a refused start has by then given up every
  settled task.
- `ConversationClaims.ClaimRunsExactlyIfReadable`: a claimed file whose base name is blank is saved,
  and from then on its thread's list is refused when read, until the thread is deleted.

## Model

| member | source | states |
|---|---|---|
| WorkbenchDrop.StepKeepsRecoverable | src/extension/workbench-drop-compatibility.ts:756-804 | recoverable: the originals, or product.json alone patched, or both, with journal and valid backups in the last two; a step leaves a recoverable disk exactly if it is not the blind one, product.json put back under a patched bundle |
| WorkbenchDrop.EveryStateOfARunIsRecoverable | src/extension/workbench-drop-compatibility.ts:535-835 | every state of every run since the last outside write, each a possible crash point, can be undone with the journal and valid backups; it is recoverable exactly if the bundle is not patched alone, and always while no blind step was taken |
| WorkbenchDrop.StepKeepsUndoable | src/extension/workbench-drop-compatibility.ts:535-835 | no step, the blind one included, leads to a disk that the journal and backups cannot undo |
| WorkbenchDrop.BlindStepLeavesBundleAlone | src/extension/workbench-drop-compatibility.ts:793-804 | from a recoverable disk, the next step leads to one that is not exactly if it is blind |
| WorkbenchDrop.OverwrittenBytesAreSaved | src/extension/workbench-drop-compatibility.ts:416-440 | whatever ran before, outside writes included: bytes that a step overwrites in an asset are the recorded patched ones or are held by a hash-matching backup |
| WorkbenchDrop.Installation.Commit | src/extension/workbench-drop-compatibility.ts:174-182 | one atomic write, rename or removal happens entirely or not at all, and is recorded |
| WorkbenchDrop.Installation.ReplaceAndVerify | src/extension/workbench-drop-compatibility.ts:525-533 | an asset is replaced only if it and the source file have the expected digests, and by that file's bytes; otherwise nothing changes and it fails |
| WorkbenchDrop.Installation.ClearManagedState | src/extension/workbench-drop-compatibility.ts:192-200 | journal and backups go, in any order, the others going on when one removal fails, with the assets untouched; done, nothing managed is left |
| WorkbenchDrop.Installation.WriteManagedFiles | src/extension/workbench-drop-compatibility.ts:756-761 | backups and staged files are written in any order, the others going on when one write fails, before there is a journal, the assets untouched |
| WorkbenchDrop.Installation.Prepare | src/extension/workbench-drop-compatibility.ts:741-762 | a first enable, before it touches an asset, has put down backups, staged files and a journal of exactly the present and the patched assets |
| WorkbenchDrop.Installation.PatchBoth | src/extension/workbench-drop-compatibility.ts:763-777 | product.json then the bundle; wherever it stops, the bundle is not patched alone |
| WorkbenchDrop.Installation.RestoreLocked | src/extension/workbench-drop-compatibility.ts:843-972 | restore, with any crash, failed step or failed read: refusals change nothing; each status has its exact condition; it succeeds exactly from restorable states and then leaves the originals, or newer installed assets as they are, and nothing managed; from any disk that can be undone, the bundle alone patched included, it leaves the original pair whenever it returns; undisturbed it always returns; it never takes a blind step |
| WorkbenchDrop.Installation.Reapply | src/extension/workbench-drop-compatibility.ts:621-684 | with intact managed files: conflict exactly if an asset is unknown to the journal, already patched exactly if both are patched, and neither changes anything; else both assets end patched |
| WorkbenchDrop.Installation.RollBack | src/extension/workbench-drop-compatibility.ts:778-824 | after a failed patch, each of the four asset reads working or not: undisturbed, an asset that could be read is the original again and one that could not is untouched, and journal and backups go exactly if both originals are seen to be back; disturbed at any step, the bundle ends patched alone exactly if it was patched, its first read fails, and product.json is read as patched and put back |
| WorkbenchDrop.SightedRollbackRestores | src/extension/workbench-drop-compatibility.ts:783-822 | with every read and step working, the assets are the backed-up bytes again and nothing managed is left |
| WorkbenchDrop.Installation.EnableUnmanaged | src/extension/workbench-drop-compatibility.ts:687-835 | without a journal: patched exactly if the present version can patch the assets, then carrying exactly that patch with backups of what was there; refusals change nothing; an enable that throws after a rollback that could read everything and was not disturbed leaves exactly the assets it found and nothing managed |
| WorkbenchDrop.Installation.EnableLocked | src/extension/workbench-drop-compatibility.ts:535-835 | enable, recursion included, ends; refusals leave both assets alone; each status has its exact condition; it succeeds exactly from enableable states and then the disk carries the patch this version makes of the backed-up originals, which stay the recorded ones unless newer assets were installed; rolled back undisturbed, it leaves the originals and nothing managed |
| WorkbenchDrop.InspectExactly | src/extension/workbench-drop-compatibility.ts:310-349 | without a journal a version accepts exactly the pairs it can patch, and gives exactly what the two rewritings make of them; what it refuses is a conflict exactly if the bundle already holds a drop patch |
| WorkbenchDrop.UpgradeExactly | src/extension/workbench-drop-compatibility.ts:271-308 | installed assets are taken as a newer installation exactly if neither is a recorded one, both product.json files tell their version and commit and these differ, and this version can patch the pair |
| WorkbenchDrop.AnyCalls | src/extension/workbench-drop-compatibility.ts:837-841 | any sequence of enable and restore calls of any versions, cut off or failing at any step or read: every state on the way can be undone, and is recoverable exactly if the bundle is not patched alone, which takes a blind rollback |
| WorkbenchDrop.BlindRollbackThenRestore | src/extension/workbench-drop-compatibility.ts:778-804 | the run that leaves the patched bundle over the original product.json, from any fresh patchable installation: no longer recoverable, yet any version restores the originals from it |
| WorkbenchDrop.ClearingCutShort | src/extension/workbench-drop-compatibility.ts:192-200 | clearing cut short with the journal left: with both backups left the restore can go on; with one gone no version can restore or enable |
| WorkbenchDrop.ClearingMayStartWithABackup | src/extension/workbench-drop-compatibility.ts:192-200 | such a crash point is one removal away |
| WorkbenchDrop.RefusedForEver | src/extension/workbench-drop-compatibility.ts:575-583 | from a journal without valid backups every call is refused or throws and changes nothing |
| LedgerProperties.RunKeepsInv | src/core/operation-ledger.ts:211-273 | in every reachable ledger before close: index and id sets are inverse, running entries are stored and have an id, at most maxEntries entries, results that fit take at most maxBytes |
| LedgerProperties.StoredBytesBound | src/core/operation-ledger.ts:211-232 | the byte account is at most maxBytes plus one fixed tombstone size per replaced entry |
| LedgerProperties.BytesAreFittedPlusTombstones | src/core/operation-ledger.ts:211-232 | the account is the sum of the fitting results plus one tombstone for each that did not fit |
| LedgerProperties.SettleAddsItsSize | src/core/operation-ledger.ts:231-231 | settling adds exactly the size of what is kept |
| LedgerProperties.DeleteKeepsInv | src/core/operation-ledger.ts:267-273 | deleting a settled entry takes exactly its size off, so the clamp at zero never acts |
| LedgerProperties.OperationsInvertIds | src/core/operation-ledger.ts:198-209 | an operation id points to an entry exactly if that entry lists it, and then the entry is stored and running |
| LedgerProperties.CancelHitsExactlyItsEntry | src/core/operation-ledger.ts:156-163 | cancel aborts the one entry its id is bound to and reports whether there was one |
| LedgerProperties.NoCancelAfterSettling | src/core/operation-ledger.ts:233-238 | once an entry has settled none of its ids cancels anything |
| LedgerProperties.StoredRunsOnce | src/core/operation-ledger.ts:78-132 | as long as an entry stays stored its id is not executed again |
| LedgerProperties.HandlesFollowTheStoredExecution | src/core/operation-ledger.ts:78-132 | start executes exactly if the id is not stored after pruning; else its handle is the stored execution's, live while it runs and as kept afterwards |
| LedgerProperties.FaithfulReplay | src/core/operation-ledger.ts:104-120 | for ever after a settlement: joined callers get the executor's outcome, replays get it or RESULT_UNKNOWN exactly if it did not fit, and status agrees with the replay |
| LedgerProperties.SettlesOnce | src/core/operation-ledger.ts:211-239 | an execution settles at most once in any run |
| LedgerProperties.RejectedStartOnlyPrunes | src/core/operation-ledger.ts:72-102 | a rejected start changes nothing beyond pruning |
| LedgerLaws.StartExactly | src/core/operation-ledger.ts:72-133 | a stored id with the same parameters joins exactly if it runs and the operation id is its own or free, and replays exactly if it has settled; an unstored one executes exactly if there is room and the operation id is free; each error has its exact condition |
| LedgerLaws.StartLeaves | src/core/operation-ledger.ts:104-132 | joining binds the operation id and changes nothing else; an execution adds one running entry under that id; a replay or an error leaves the pruned ledger |
| LedgerLaws.PruneExactly | src/core/operation-ledger.ts:241-248 | an entry stays exactly while it runs or has been settled for less than the retention time |
| LedgerLaws.SettleKeepsExactly | src/core/operation-ledger.ts:211-239 | an outcome is kept exactly if its bytes fit beside those kept, and is else replaced; exactly the ids of its entry are released |
| LedgerLaws.KeptStatusExactly | src/core/operation-ledger.ts:109-124 | what status the kept outcome gets: completed, cancelled, unknown or failed by its error code, unknown if it was replaced |
| LedgerLaws.StatusExactly | src/core/operation-ledger.ts:135-154 | unknown without an entry, running while it runs, and what was kept afterwards |
| LedgerLaws.ClearExactly | src/core/operation-ledger.ts:165-185 | clearing aborts exactly the running entries whose id begins with the prefix, letter by letter, and at the end takes away exactly those it matched that are still the ones stored |
| OperationLedger.OperationLedger.Start | src/core/operation-ledger.ts:72-133 | the object's start takes its state to LedgerSpec.Start and returns that handle or error; LedgerLaws.StartExactly says which |
| OperationLedger.OperationLedger.Settle | src/core/operation-ledger.ts:211-239 | the object's settle takes its state to LedgerSpec.Settle |
| OperationLedger.OperationLedger.Status | src/core/operation-ledger.ts:135-154 | status prunes and reports the stored snapshot or unknown |
| OperationLedger.OperationLedger.Cancel | src/core/operation-ledger.ts:156-163 | cancel takes its state to LedgerSpec.Cancel and returns whether something was aborted |
| OperationLedger.OperationLedger.ClearBegin | src/core/operation-ledger.ts:165-173 | clearPrefix up to its wait aborts exactly the running entries under the prefix and remembers the matches |
| OperationLedger.OperationLedger.ClearFinish | src/core/operation-ledger.ts:175-184 | after the wait, whatever happened meanwhile, exactly the remembered entries that are still stored go |
| OperationLedger.OperationLedger.Prune | src/core/operation-ledger.ts:241-248 | exactly the entries past their retention go, byte account included |
| OperationLedger.OperationLedger.DeleteEntry | src/core/operation-ledger.ts:267-273 | removal leaves the running byte counter equal to the sum over stored entries |
| OperationLedger.OperationLedger.BindOperation | src/core/operation-ledger.ts:198-209 | binding refuses an id of another entry and otherwise adds it to the entry and the index |
| ExecuteProtocol.RecoverExecuteResult | src/core/vscode-remote-executor.ts:287-380 | recovery goes past exactly the polls answered with running or lost on the way; the first other one decides: a completed record succeeds with its content and nothing else does, a failed or cancelled one throws its own code, everything else RESULT_UNKNOWN, as running out of polls does |
| ExecuteProtocol.StatusAnswersExactly | src/core/vscode-remote-executor.ts:322-366 | in the protocol, an answer to resultStatus does to the waiting call the same, by its status, result and error code |
| ExecuteProtocol.RequestErrorsExactly | src/core/vscode-remote-executor.ts:112-118 | a request that ends in an error goes on to recovery exactly if it has a side effect and its outcome is in doubt; any other error reaches the caller |
| ExecuteProtocol.UndisturbedCallResolves | src/core/vscode-remote-executor.ts:87-133 | for every key, parameters and answer record there is a run, nothing lost, in which the call resolves with it as executed |
| ExecuteProtocol.LostReplyIsRecovered | src/core/vscode-remote-executor.ts:287-366 | and one in which the reply is lost and the call recovers its own result, marked replayed |
| ExecuteProtocol.StepKeepsWorldOk | src/remote-extension/extension.ts:357-455 | every step of clients, lossy transport and executor keeps: a reply carries what an execution of its request's key and parameters produced, a status answer what one of its key did |
| ExecuteProtocol.ResolvedCallsAreTruthful | src/core/vscode-remote-executor.ts:87-133 | in every run with any losses, a call that resolves gives what an execution of its key produced, annotations aside; while the ledger has not let the key go there is exactly one such execution |
| ExecuteProtocol.ResolvedCallsRanTheirOwnParameters | src/remote-extension/extension.ts:423-455 | a call answered without recovery, as every call without a side effect is, got the result of its own parameters whatever other calls do; a recovered one did if no call uses its key for different parameters |
| ExecuteProtocol.RecoveryIgnoresParameters | src/remote-extension/extension.ts:389-398 | without that, for every key, every two different sets of parameters and every answer there is a run in which a side-effect call with the first is recovered with the result of the second |
| RequestClosure.Request.Run | src/core/vscode-remote-executor.ts:440-598 | whatever order the callbacks come in, the first that can settle the request does, and at most one cancel request is issued, only after sending and not after settling |
| RequestClosure.SettlesOnce | src/core/vscode-remote-executor.ts:444-455 | no later callback changes how a request ended |
| RequestClosure.OpenExactly | src/core/vscode-remote-executor.ts:463-560 | which callbacks leave a request open: connecting, output, and an abort once it has been sent |
| RequestClosure.EndingsExactly | src/core/vscode-remote-executor.ts:456-597 | what the deciding callback makes of a request: each result and each error code has its exact callbacks, a lost connection in doubt with a side effect and a disconnect without |
| RequestClosure.DoubtIsReported | src/core/vscode-remote-executor.ts:456-497 | a side effect never ends in a disconnect error, and CANCELLED without the remote saying so means the request was never sent |
| RequestClosure.UnreadableFrameHidesTheDoubt | src/core/vscode-remote-executor.ts:526-573 | exactly when a request ends in PROTOCOL_MISMATCH: an unreadable frame, or a remote error of that code, is the first to settle it, side effect or not |
| DeferredEvents.SinkSeesAPrefix | src/remote-extension/deferred-execution-events.ts:42-50 | in every run the sink gets a prefix of the enqueued events, in order, one at a time, none before the queue is ready |
| DeferredEvents.QueueKeepsTheOrder | src/remote-extension/deferred-execution-events.ts:20-50 | the queue holds the events in the order in which they were reported |
| DeferredEvents.FailuresDoNotBlock | src/remote-extension/deferred-execution-events.ts:42-50 | a failing sink holds up nothing behind it |
| OperationKeys.PrefixSelectsItsWorkspace | src/remote-extension/extension.ts:400-411 | the prefix cleared by a workspace stop matches the keys of that host and root and no others |
| OperationKeys.PrefixSelectsExactly | src/remote-extension/extension.ts:400-411 | with nothing asked of host ids: besides its own workspace the prefix selects exactly those of hosts whose id goes on from the whole prefix |
| OperationKeys.PrefixReachesOddHosts | src/remote-extension/extension.ts:400-411 | every workspace has such hosts, with a NUL in their id |
| OperationKeys.EntryKeysDistinguish | src/remote-extension/extension.ts:353-355 | keys made from idempotency keys coincide exactly for the same host, root and key, whatever the host ids |
| OperationKeys.KeysDistinguish | src/remote-extension/extension.ts:353-355 | two operations share a key exactly if host, root and id agree |
| TaskLog.BoundedTaskLog.Append | src/remote-extension/background-tasks.ts:67-80 | after any append the segments are contiguous, non-empty and hold the history from max(0, total - limit) on, channels included |
| TaskLog.BoundedTaskLog.Prune | src/remote-extension/background-tasks.ts:122-137 | pruning drops and trims exactly what lies before the base |
| TaskLog.BoundedTaskLog.Read | src/remote-extension/background-tasks.ts:82-120 | a page is exactly the history slice from max(base, cursor), with the clamped length, and says rightly whether more follows and whether its cursor was dropped |
| TaskLog.PageExactly | src/remote-extension/background-tasks.ts:82-120 | a page begins at the latest of zero, the cursor and the oldest byte kept, and has the bytes asked for, clamped to between 1 and 262144, or all there are |
| TaskLog.RetainedIsTheTail | src/remote-extension/background-tasks.ts:122-137 | the retained segments are the last min(limit, total) bytes |
| TaskLog.PagesLoseNothingElse | src/remote-extension/background-tasks.ts:387-410 | what a poller has received, feeding cursors back while the task writes, is the history up to its cursor without the gaps in front of pages |
| TaskLog.GapsAreFlaggedAndForced | src/remote-extension/background-tasks.ts:89-118 | a page is flagged truncated exactly if there is a gap in front of it, and every byte of a gap had been dropped before that page was read |
| TaskLog.PagingEnds | src/remote-extension/background-tasks.ts:90-113 | without appends every read that is not at the end moves on, so paging ends |
| TaskLog.AnyPolling | src/remote-extension/background-tasks.ts:387-410 | any interleaving of writes and polls on the log behaves so |
| BackgroundTasks.BackgroundTask.OnTimeout | src/remote-extension/background-tasks.ts:326-332 | a firing timeout is recorded as a cause before its signal, and the status still follows the first cause |
| BackgroundTasks.BackgroundTask.OnForce | src/remote-extension/background-tasks.ts:575-583 | the second signal goes only to a running process that was asked to terminate before |
| BackgroundTasks.BackgroundTask.EndProcess | src/remote-extension/background-tasks.ts:550-585 | terminating disarms the timeout and sends TERM, or TERM and KILL at once |
| BackgroundTasks.BackgroundTask.Cancel | src/remote-extension/background-tasks.ts:412-435 | cancelling a settled task does nothing; a running one records the cause and is signalled |
| BackgroundTasks.BackgroundTask.Finish | src/remote-extension/background-tasks.ts:465-490 | the first close settles the task by its first cause, or its exit code if there is none; later ones do nothing |
| BackgroundTasks.AnyLife | src/remote-extension/background-tasks.ts:326-344 | over every order of timers, cancels, stops and closes: first cause wins, no signal after settling, TERM before KILL |
| BackgroundTasks.DecidedForGood | src/remote-extension/background-tasks.ts:470-472 | a status once decided never changes again, whatever follows |
| BackgroundTasks.StatusExactly | src/remote-extension/background-tasks.ts:465-490 | the final status by what happened: timed out exactly if the timer fired before the close and before any cancel, cancelled the other way round, else completed or failed by the exit code |
| BackgroundTasks.RemoteBackgroundTasks.MakeCapacity | src/remote-extension/background-tasks.ts:492-516 | running tasks are never evicted, settled ones oldest first and only as many as needed; it refuses exactly if running tasks alone fill the table, having then evicted every settled one |
| BackgroundTasks.RemoteBackgroundTasks.Prune | src/remote-extension/background-tasks.ts:518-529 | exactly the running tasks and those settled after the cutoff stay |
| BackgroundTasks.RemoteBackgroundTasks.Start | src/remote-extension/background-tasks.ts:235-365 | as one step, each outcome by its exact condition on the pruned table: a known id with the same parameters is joined while it runs and replayed once settled, with others refused; an unknown one is run exactly if the running tasks leave room; no running task is lost and the table stays within its bound |
| BackgroundTasks.RemoteBackgroundTasks.StopBegin | src/remote-extension/background-tasks.ts:437-446 | every running task of the workspace is cancelled and killed, and no other task is signalled |
| BackgroundTasks.RemoteBackgroundTasks.StopFinish | src/remote-extension/background-tasks.ts:448-453 | after the wait the stopped tasks go, but not a task since started under the same id |
| OverlappingStarts.AccountedUnlessOvertaken | src/remote-extension/background-tasks.ts:243-334 | starts as two steps, in any interleaving: while no start is overtaken by another for its key between check and spawn, every running process is the task entered under its key, so none runs twice or is lost |
| OverlappingStarts.StepAccountsExactly | src/remote-extension/background-tasks.ts:292-334 | a step loses sight of a running process exactly if it enters a task over one that runs |
| OverlappingStarts.PendingKeysRunOnlyIfOvertaken | src/remote-extension/background-tasks.ts:243-334 | a start finds its key running at its spawn only because another start overtook it |
| OverlappingStarts.OverlappingStartsBothRun | src/remote-extension/background-tasks.ts:243-334 | for every key a run of two overlapping starts in which both processes run and the table knows only the second |
| HandoffClaim.TwoNeverHoldTogether | src/shim/app-server-handoff.ts:280-328 | two processes never hold the claim together, under every interleaving of their file-system calls, any number of attempts and whatever claim file they found |
| HandoffClaim.NextSafe | src/shim/app-server-handoff.ts:285-311 | the invariant behind it, call by call: while one holds, the name is taken by no dead owner's text, or the other is about to put the live claim back |
| HandoffClaim.ThirdContenderBreaksIt | src/shim/app-server-handoff.ts:299-312 | a concrete run of three processes in which two hold at once, the third entering between rename and write-back |
| HandoffClaim.SucceedsExactlyWhenClaimable | src/shim/app-server-handoff.ts:285-318 | undisturbed, an attempt holds the claim exactly if there was none or a dead owner's, and otherwise leaves everything as it was |
| HandoffClaim.ReleaseFreesExactly | src/shim/app-server-handoff.ts:299-324 | a release frees the claim for the other process exactly if that one has not renamed the live claim away to put it back; else the claim ends up taken by nobody |
| HandoffClaim.ReleaseIsLost | src/shim/app-server-handoff.ts:299-324 | a concrete run of two processes in which that happens |
| HandoffClaim.JammedForEver | src/shim/app-server-handoff.ts:285-318 | from there on no process ever holds the claim again while these processes live |
| ResourceUri.RoundTripsUnlessRootIsDot | src/core/workspace-resource-uri.ts:57-148 | every identity that can be printed is parsed back to itself, exactly unless its root id is a dot segment, which URL parsing removes |
| ResourceUri.DistinctIdentitiesPrintDistinctly | src/core/workspace-resource-uri.ts:57-82 | printing is injective on those |
| ResourceUri.ParsedIdentitiesRoundTrip | src/core/workspace-resource-uri.ts:84-148 | whatever a URI parses to can be printed and parses back to itself |
| ResourceUri.IdentifiedExactly | src/core/workspace-resource-uri.ts:99-147 | decoded segments and query fields stand for an identity exactly if it can be printed, the segments are its own, and the fields are its own in any order, none missing, extra or repeated |
| ResourceUri.DotSegmentsExactly | src/core/workspace-resource-uri.ts:84-90 | what the URL parser makes of dot segments: a double dot takes the name before it along, nothing at the top, a single dot goes alone, and at the end either leaves an empty segment |
| UriText.CodingRoundTrips | src/core/workspace-resource-uri.ts:73-81 | percent encoding of UTF-8, as encodeURIComponent and URLSearchParams do it, decodes to the same text |
| UriText.KeptExactly | src/core/workspace-resource-uri.ts:73-81 | which characters encodeURIComponent and URLSearchParams leave as they are; all others become the percent form of their UTF-8 bytes, or a plus |
| RemotePaths.RelativePathExactly | src/core/workspace-resource-uri.ts:150-173 | a remote path is made relative exactly if it lies strictly inside the root (and within the path limits); the result has no dots and leads from the root to the same place |
| RemotePaths.NormalisingExactly | src/core/workspace-resource-uri.ts:162-165 | normalising, step by step: a name goes down, two dots go up and not above the root, one dot and a doubled slash stay |
| RemotePaths.EscapesAreRefused | src/core/workspace-resource-uri.ts:164-168 | a candidate that goes up out of the root and down by another name is refused as outside |
| RemotePaths.DetoursVanish | src/core/workspace-resource-uri.ts:162-171 | one that goes down and up again on the way gives the path without the detour |
| RemotePaths.RefusalsExactly | src/core/workspace-resource-uri.ts:155-171 | which error, exactly when: empty or NUL text, a relative root, a path not strictly inside, or one over the limits |
| ShellQuoting.RemoteCommandRoundTrips | src/core/ssh-executor.ts:205-224 | POSIX tokenisation reads the remote command back as sh, -c, wrapper, codex-bridge, directory and the arguments; refused are exactly an empty command and text with NUL |
| ShellQuoting.SingleQuotesAreLiteral | src/core/ssh-executor.ts:205-210 | the tokeniser takes text between single quotes as it stands, as section 2.2.2 of the POSIX Shell Command Language has it |
| ShellQuoting.DoubleQuotesAreLiteral | src/core/ssh-executor.ts:205-210 | and between double quotes text without the four characters that mean something there (section 2.2.3) |
| ShellQuoting.DisplayedCommandRoundTrips | src/shim/remote-command.ts:59-67 | POSIX tokenisation reads the displayed command back as the argument vector, unquoted fast path included |
| LinkProjection.ProjectAgentMessageLinks | src/shim/native-tool-presentation.ts:128-170 | the loop's output is the message cut at the scanned marks, with each link's destination projected and every other piece, code included, as it was |
| LinkProjection.ProjectLinkDestination | src/shim/native-tool-presentation.ts:69-104 | within a destination only the target part is projected, with or without angle brackets |
| LinkProjection.MarkdownLinkEnd | src/shim/native-tool-presentation.ts:106-126 | the loop finds LinkEnd |
| LinkProjection.LinkEndMatches | src/shim/native-tool-presentation.ts:106-126 | the end of a link is its matching parenthesis: unescaped, with everything balanced before it |
| LinkProjection.MarksAreDelimited | src/shim/native-tool-presentation.ts:134-167 | a scanned code span runs from all the backticks in a row to the next as many; a link destination lies between a bracket pair opening and its matching parenthesis |
| LinkProjection.MarksMissNothing | src/shim/native-tool-presentation.ts:134-167 | before the scan gives up, every link opening and every backtick lies in a scanned span |
| LinkProjection.GivesUpExactly | src/shim/native-tool-presentation.ts:142-156 | the scan goes to the end of the message, or gives up behind all spans at a code or link opening that nothing closes |
| LinkProjection.OnlyTheTargetChanges | src/shim/native-tool-presentation.ts:69-104 | a destination changes at most in its target: for an angle target what lies between the opening bracket and the first closing one, for a bare one what ends at the first unescaped white space or the end; with no target it does not change |
| LinkProjection.TargetSpanIsTarget | src/shim/native-tool-presentation.ts:73-99 | the span the code works on is that target, and where it finds none there is none |
| LinkProjection.ReferenceExactly | src/shim/native-tool-presentation.ts:34-67 | a target changes exactly if its path is absolute and strictly inside the primary remote root; the new one leads from the root to the same file, with the same location suffix |
| LinkProjection.SplitExactly | src/shim/native-tool-presentation.ts:34-45 | where a target is taken apart: at a location after # if there is one, else at one after a colon, in either case with the longest path, non-empty and of one line; else it is all path |
| LinkProjection.LocationsExactly | src/shim/native-tool-presentation.ts:35-41 | the two expressions accept exactly a line, or from one to another, each perhaps with a column, in the two spellings |
| WorkspacePatch.ApplyWorkspacePatch | src/core/workspace-mutations.ts:60-119 | with 1 to 64 replacements and content that decodes, it returns the bytes of the last of the texts the replacements lead through, exactly if they lead through; each error exactly when: the count, the decoding, or the first replacement that has no text to look for, does not find it, or finds it twice apart |
| WorkspacePatch.ReplaceExactly | src/core/workspace-mutations.ts:87-117 | a replacement applies exactly if its text occurs and no two occurrences lie apart; it is the leftmost that goes |
| WorkspacePatch.PatchExactly | src/core/workspace-mutations.ts:87-117 | a patch applies exactly if each replacement does on the text the ones before it leave, and the length changes by what they say |
| TailCapture.ByteTail.Append | src/core/ssh-executor.ts:292-305 | the buffer is the last min(limit, total) bytes; the flag is set exactly if bytes were lost or one chunk alone reached the limit |
| TailCapture.FlagErrsOnlyAtTheLimit | src/core/ssh-executor.ts:293-297 | so without loss the flag is set only when exactly limit bytes came |
| TailCapture.TailIsLast | src/core/ssh-executor.ts:292-305 | that tail is a suffix of everything received, all of it if it is below the limit and else limit bytes |
| TailCapture.ChunkTail.Append | src/core/local-process-executor.ts:36-46 | the chunks kept are a run of whole chunks at the end that fits and that one more would break; the flag says whether any went |
| TailCapture.LongestRunIsLongest | src/core/local-process-executor.ts:36-46 | that run is the longest that fits, and something goes exactly if the whole does not fit |
| TailCapture.CaptureBoth | src/core/local-process-executor.ts:26-51 | for the same output the local capture is always a suffix of the SSH capture |
| ConversationClaims.NextOneAtATime | src/extension/conversation-resource-authority.ts:324-336 | the promise barrier lets at most one mutation run, in the order they queued |
| ConversationClaims.ClaimsAreExact | src/extension/conversation-resource-authority.ts:200-293 | under every interleaving no drop is claimed twice, and each thread's stored list is exactly what it claimed since its last deletion, no path twice |
| ConversationClaims.FreshDropIsClaimed | src/extension/conversation-resource-authority.ts:217-263 | a drop staged within thirty minutes and mentioned by a readable thread that has no such path is in its stored list once the claim is through, and staged no longer |
| ConversationClaims.MentionExactly | src/extension/conversation-resource-authority.ts:229-257 | one mention claims exactly if the path is staged as what it is now and not in the list; the list then grows by it, the drop is gone, and nothing else changes |
| ConversationClaims.PurgedExactly | src/extension/conversation-resource-authority.ts:338-345 | exactly the drops staged for longer than thirty minutes go |
| ConversationClaims.ClaimRunsExactlyIfReadable | src/extension/conversation-resource-authority.ts:224-227 | a claim gets to run exactly if no path its thread has claimed since its last deletion has a blank base name |

## Left out

- Lock files around the Workbench transaction: one holder is taken for granted; stale-lock recovery and the privileged replacement are not part of this model.
- WorkbenchDrop.Installation.ClearManagedState: removals that go on after one has failed end before the call does; in the source they may still be under way when the next call begins.
- WorkbenchDrop.Installation.WriteManagedFiles: the same for its writes.
- The text rewriting of `patchProductChecksum` and of the Workbench source: arbitrary functions of the contents, the same for every call of one version.
- WorkbenchDrop.Installation.Commit: a failed call has no in-between effect, because writeAtomic and the asset copy go through a temporary file and one rename; left-over temporary files are ignored.
- `inspectWorkbenchDropCompatibility` and the single-asset variants of the transaction, which only read or repeat it.
- `OperationLedger.close`, after which nothing is promised: operations that settle later still add to the byte counter.
- Error messages, details, timing values and the retry delay; recovery's deadline is the end of the sequence of answers.
- ExecuteProtocol.ResolvedCallsAreTruthful: for a key the ledger has let go and that was then run again it promises some execution of the key, not which one.
- ExecuteProtocol.StepKeepsWorldOk: output frames, the acceptance reply and the controller between client and executor are one lossy channel.
- BackgroundTasks.RemoteBackgroundTasks.Start: one step, although the source awaits between the capacity check and the insertion, so the bound is not claimed for overlapping starts (`OverlappingStarts` has them in two steps, for the run-once question); directory and argument checks are left out.
- ShellQuoting.DisplayedCommandRoundTrips: tokenisation only; a shell would take a first word like `A=b` as an assignment and knows reserved words and aliases.
- OverlappingStarts.AccountedUnlessOvertaken: the capacity bound, fingerprints and logs are not part of this model, and only a running process reports a spawn error.
- BackgroundTasks.BackgroundTask.Finish: the exit signal and the list of descendant processes are not recorded.
- HandoffClaim.TwoNeverHoldTogether: neither process dies during the run; a crash between rename and write-back has the effect of a third contender. Candidate selection and the checks between creating and returning a claim appear only as the choice to release.
- ResourceUri.ParsedIdentitiesRoundTrip: URIs whose scheme or authority is spelled otherwise, that hold characters the URL parser would rewrite, or whose query is not UTF-8 are answered with OtherSpelling.
- Lone surrogates, which encodeURIComponent refuses, and Windows paths in `workspaceRelativePath`.
- LinkProjection.ProjectAgentMessageLinks: JavaScript string positions are UTF-16; the scanned characters are all single units, so positions differ but not the text.
- ConversationClaims.ClaimsAreExact: saves succeed; a failing save loses the drops it claimed. Resource ids are the hashed triple itself. Interleaving is modelled on values, step by step, not on the object.
- Sockets, process spawning and signals, JSON, base64 and hashing: only the events or values they deliver appear.
- The user interface, configuration, onboarding and audit code, which hold single-branch facts.
