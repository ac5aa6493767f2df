# Volum in Dafny

Volum is a file manager whose long operations run on the server as persistent jobs. This project models the parts
of it in which a crash, a pause, a restart or a retry may come at any moment, and the algorithms behind its storage
analysis, its path mapping and its sessions, and proves what they keep.

## How the model is built

* `FileSystem`, `Volumes`: the file system is a map from paths (lists of names) to directories or bytes. `Volume` has
  the primitives the program uses: atomic rename without replacement, exclusive creation, opening, partial writes,
  directory creation step by step, recursive removal entry by entry. **Any primitive may be the last thing the process
  does**, before or after its effect; a dead process changes nothing until the server starts again. **Any primitive may also
  fail** with a fault of the disk: without effect, or, for a write, after a part of it. The flag `disturbed` records that
  one of these happened: safety never depends on it, and "succeeds when undisturbed" is stated with it.
* `TransferModel`, `TransferPlan`, `Transfer`: resumable copy and move. `TransferModel` holds the invariant and what it
  gives; `TransferPlan` the plan, the queue and its bookkeeping; `Transfer.Worker` is the worker together with the job's
  row and item rows, every database statement being one atomic step. The user may pause, resume or cancel whenever the
  worker reads the status. `Worker.Run` is the theorem about whole runs. `TransferLimits` shows what the assumptions
  about a job are for.
* `Copies`, `TrashModel`, `Trash`: the trash, with the copy across devices.
* `Sums`, `DiskUsage`, `Duplicates`, `DuplicateWalk`: storage analysis.
* `Upload`: client and server of the chunked upload.
* `Names`, `Lexical`, `Extract`, `Roots`: free names, lexical cleaning, the walk to an archive entry, the root mapping.
* `RateLimiter`, `Tokens`, `Sessions`, `Scheduling`, with `JobStatus`: counters over time, tokens and session
  versions, the order of jobs.

Throttles are nondeterministic choices of when a status is read or progress written. Hashes and MACs are uninterpreted
functions; where a property needs an injective hash, it says so.

## Where the code does less than one may expect

Each of these is proved, with the exact condition under which the expected property holds.

* A plan is stored row by row (`transfer.go:162-177`), and on resume whatever rows there are count as the whole plan
  (`transfer.go:126-128`). After a crash between two inserts a move removes files it never copied, and so does a "skip"
  answered by the user. `CompletedMoveKeepsExactlyItsRows`: a file survives a completed move if and only if it has a row
  that the user did not skip. `PartialPlanLosesAFile` is such a state.
* A crash between the rename of a copy and the update of its row leaves an open row whose destination exists:
  `RenameWithoutMark` for every such crash, `CopiedButOpen` a state. So does a cancellation that is seen only after the
  copy is in place (`transfer.go:95-104`, `Transfer.Worker.RecordItem`). The copy is whole, but no turn, restart or item
  retry ever finishes such a job. `Transfer.Worker.RunOnce`: an undisturbed turn completes a stored plan if and only if
  nothing is in the way of its open rows. `Transfer.Worker.Run`: unless the user answers a conflict, a stored plan that
  cannot be finished stays so over any run, and its job never completes.
* A partial file is resumed by its size alone (`transfer.go:222-226`). `ResumedExactly`, `ResumeOver`: the published copy
  is the source if and only if what was found is a prefix of it, and the size check accepts it in any case;
  `WrongBytesArePublished` is a leftover that is not a prefix.
* Only a destination inside the source is refused (`transfer.go:60`). `OverwriteFirst`: an overwrite leaves the source if
  and only if the source is not inside the destination; `OverwriteRemovesItsSource` is an instance. A job that asks may
  put an entry inside its own source if its destination is above it, and a finished move then removes both
  (`MoveIntoItselfLoses`). `AboveIsSafeExactly`: its targets keep out of its source if and only if no entry repeats the
  names between the two, and no file is named like the first of them; such jobs are not excluded.
* A move whose source removal fails, other than by a crash, ends as failed with all its rows completed, and only the
  retry of the whole job goes on from there. That retry deletes the rows. `OverwriteAfterMove`: under "overwrite" a file
  then survives the removal of the destination if and only if it is still at its source or its copy lies elsewhere.
  `Transfer.Worker.RetryAndRun`: a retry loses nothing while the source was whole, and no copy that is not overwritten.
* "Cancelled" is not final: `CompleteJob`, `FailJob` and `NeedsAttention` overwrite any status (`store.go:188-206`,
  `272-280`). `Transfer.Worker.CancelledTooLate`: a cancellation after the worker's last look is overwritten by whatever
  the turn ends with, all three ends included. A job that no turn holds stays cancelled over any run in which no item
  of it is retried (`Transfer.Worker.Run`). A turn keeps the cancellations it still looks at: before each item
  (`CopyNext`), between blocks (`CheckStopped`) and after each copy (`RecordItem`); one that came before the loop is kept
  if and only if there is an item left (`CopyAndFinish`).
* Restoring a directory across devices removes the trash copy while the temporary copy is the only whole one. For every
  directory with entries `RemovalHasATornMiddle` gives the point, and `RestoreAfterTear` shows that the next call
  deletes the whole copy. `Trash.Entry.Restore`: this happens only across devices and never to a single file.
* A repeated trash call that finds metadata but no trash copy always fails; one that finds metadata and a part of the
  copy answers success. The original is untouched in both cases (`Trash.Entry.TrashWithID`).
* When the removal of the original fails after a copy across devices, the metadata of a whole trash copy is dropped
  (`service_trash.go:76-79`). `FailedRemovalOrphans`: for every directory with entries there is a point at which this
  leaves the trash copy whole, the original not, and no metadata; a restore then answers "not found".
  `Trash.Entry.TrashWithID`: it happens across devices only. A further call, undisturbed, completes if and only if
  nothing that is left of the original lies in the trash already, which after such a failure means that no file is left
  (`LeftFilesBlock`).
* Disk analysis of `/` makes the root its own parent. `DiskUsage.BottomUp`: the sums are right if and only if the source
  is not `/` (or nothing was collected).
* A duplicate search without results leaves the rows of an earlier one (`Duplicates.StoreResults`).
* The upload client calls a file complete without an answer of the server if and only if the server already has as many
  bytes as the file when it asks, empty files included (`Upload.Session.UploadFileWithResume`).
* Roots configured with unrelated internal paths need not map back. `Roots.RoundTripExactly` gives the condition for any
  set of roots, `NonUniformDoesNotComeBack` an example; what `rootSpec` and the discovery build always maps back.
* The rate limiter admits `2 * rate - 1` requests in one window's length, and no more.
* A token of a user whose id has a colon is not read back; `Tokens.VerifyUndoesSign` is an equivalence.

## Model

| member | source | states |
|---|---|---|
| Transfer.Worker.Run | backend/internal/worker/transfer.go:32-119 | Over any sequence of server starts, worker turns, pauses, resumes, cancellations, conflict answers and item retries, each turn ending anywhere: until a move is finished every file of the source is whole in place; every row the user did not skip has its bytes at the source or an exact copy at its stored destination; **every file on disk is as it was, or is the partial file of a row and a prefix of its source, or lies at a row's stored destination with exactly that row's bytes**, so whatever a rename has made visible is whole, marked or not; no other file changes except below a path chosen to be overwritten; a completed job with rows has all its counts at their totals and a moved source is gone; a cancelled job stays cancelled unless an item is retried; a stored plan that cannot be finished never is, unless a conflict is answered; until then no directory goes but of the source and temporary ones. |
| Transfer.Worker.RunOnce | backend/internal/worker/worker.go:95-116 | A turn touches only a queued job. Undisturbed and unsteered, a stored plan completes if and only if nothing is in the way of its open rows, and a fresh job if and only if it passes the checks and there is room where its policy sends it; the job always ends completed, failed, or waiting for the user with a row in conflict. However it ends, a plan that could not be finished still cannot be. **Whatever the user does**, an undisturbed turn of a job that nothing is in the way of never fails: it completes, or it stands paused, one row paused with its partial file's size as progress and every other done or queued, and nothing is in its way still, or it is cancelled with no row failed. A fresh turn never fails over a destination that exists: it asks. A first turn that completes, without a skip, has put every directory of the source at its place, empty ones included. A turn from finished rows keeps them, and unless the user steers leaves the job queued, running, completed or failed. |
| Transfer.Worker.PauseAgainAndAgain | backend/internal/worker/transfer.go:83-90 | However often the user pauses a job that nothing is in the way of, in the middle of its turns, and resumes it, the next turn left alone completes it; a crash or a fault aside, it is completed or cancelled whatever the user did. |
| Transfer.Worker.FinishAgainAndAgain | backend/internal/worker/transfer.go:509-514 | However often the removal of a moved source is cut short by a crash, with restarts in between, the first undisturbed turn after it completes the job with all counts at their totals and the source gone, unless a fault had marked it failed. |
| Transfer.Worker.ProcessTransfer | backend/internal/worker/transfer.go:32-119 | From the checks to completion: keeps the invariant wherever it ends, completes a stored plan only if it could be finished and a fresh job only if there was room, and does complete them when undisturbed. |
| Transfer.Worker.CheckRequest | backend/internal/worker/transfer.go:36-62 | Exactly what the rest relies on passes: a move never skips and is not of a root, `skip_identical` is for files, the destination is not inside the source; a stored plan passes always. |
| Transfer.Worker.CopyAll | backend/internal/worker/transfer.go:74-113 | The loop runs to its end only from a state in which every open row could be finished, and does so from every such state when nothing interferes; then all rows are completed and the counts equal the totals. Stopped anywhere, it has not removed what was in the way of the plan. A job cancelled before it stays cancelled if there is an item. |
| Transfer.Worker.CopyAndFinish | backend/internal/worker/transfer.go:67-118 | A cancellation that came before the loop over the items is kept if and only if there is an item; a job completes only from a plan that could be finished. |
| Transfer.Worker.CancelledTooLate | backend/internal/jobs/store.go:188-206 | A running job that is cancelled after the worker's last look ends completed, failed or waiting all the same. |
| Transfer.Worker.CopyNext | backend/internal/worker/transfer.go:74-113 | One item: the tallies stay the sums over the completed rows, the remaining queue stays valid, and whether the plan can be finished does not change; a plan that cannot be finished stays so wherever the item ends. A cancelled job ends here untouched. An error marks the row failed, and comes only if something was in the way or went wrong; a pause ends the loop without one, with this row paused at its partial file's size and the plan as finishable as before; left alone, the loop stops without an error only at a conflict, and a fresh item whose destination exists always stops it so and never fails. |
| Transfer.Worker.RecordItem | backend/internal/worker/transfer.go:95-112 | After a copy the status is read again: a cancelled job marks its item cancelled and ends cancelled, past finishing if the copy was already in place; otherwise the row is completed and reported progress equals the tallies; only a crash ends it with an error. |
| Transfer.Worker.CopyOne | backend/internal/worker/transfer.go:293-440 | Success means the whole original is at the stored destination (or the job was cancelled); whatever appears at the destination, however the call ends, is the whole original; only this item's row and paths changed, the row is not yet marked completed, copying succeeds whenever nothing is in the way and nothing interferes, and it then leaves no empty temporary directory; a fresh item is a conflict if and only if its destination exists. |
| Transfer.Worker.PrepareItem | backend/internal/worker/transfer.go:294-326 | A stored item goes on exactly where its partial file ends, as its row then says, and a fresh one from the start; a fresh item becomes a conflict, and the job waits for the user, if and only if its destination exists. |
| Transfer.Worker.CopyPrepared | backend/internal/worker/transfer.go:328-440 | From the prepared item on: the whole original at the destination, or a stop whose cause is named; nothing beside the item's two paths and their directories changes. |
| Transfer.Worker.StageTemp | backend/internal/worker/transfer.go:328-356 | The temporary file is opened holding exactly the first `processed` bytes of the original; nothing else changes but directories on its way. |
| Transfer.Worker.WriteBlock | backend/internal/worker/transfer.go:384-394 | A write, whole, short or cut by a crash, keeps the invariant that the temporary file is a prefix of the original. |
| Transfer.Worker.CopyBlocks | backend/internal/worker/transfer.go:358-414 | The loop ends with all bytes copied unless a fault, a crash, a pause or a cancellation stops it; only the temporary file's bytes and this row's progress change. |
| Transfer.Worker.CheckStopped | backend/internal/worker/transfer.go:367-382 | The copy stops silently only if the job is cancelled, and with the pause signal only if it is paused: the row is then paused with its partial file's size; both only if the user asked for it; a cancellation stays. |
| Transfer.Worker.LookAtStatus | backend/internal/worker/transfer.go:367-382 | The copy goes on if and only if the job is neither cancelled nor paused; a pause leaves the row paused with its partial file's size. |
| Transfer.Worker.Report | backend/internal/worker/transfer.go:396-405 | A report stores the row as running with its progress and the job with the sum; the copy's invariant is kept and no file changes. |
| Transfer.Worker.UpdateJobProgress | backend/internal/jobs/store.go:178-186 | Every report equals the completed rows' sizes plus the stored progress of the one running row, is at most the total, and is never less than the one before in the same claim (demanded of every caller). |
| Transfer.Worker.VerifyAndPublish | backend/internal/worker/transfer.go:424-439 | Checking the size alone suffices: whatever appears at the destination, even if the call is cut short behind the rename, is exactly the original; success means the destination was free; with a whole temporary file and a free way it succeeds. |
| Transfer.Worker.Publish | backend/internal/worker/transfer.go:435-437 | A whole partial file is renamed only onto a free destination, wholly or not at all, crash or fault or not. |
| Transfer.Worker.PartialFileSize | backend/internal/worker/transfer.go:442-457 | The size found on disk, zero if there is no file, an error exactly for a directory, for a file on the way to it and for more bytes than expected. |
| Transfer.Worker.PlanCopy | backend/internal/worker/transfer.go:246-280 | The plan has one item for every file below the source, targets mirror sources, only directories are created, none where a file is to go, and each directory of the source is at its place; the plan can be finished if and only if there was room for everything of the source. |
| Transfer.Worker.PersistPlan | backend/internal/worker/transfer.go:162-181 | The rows are those of the whole plan with the totals their sums, or, after a crash, those of a first part of it. |
| Transfer.Worker.TransferItems | backend/internal/worker/transfer.go:121-182 | Queue, tallies and totals agree with the stored rows, for a new plan under every conflict policy and for a stored one; resuming changes no file and not whether the plan can be finished; a new plan that can be finished is made if and only if the job could start. |
| Transfer.Worker.SettleDestination | backend/internal/worker/transfer.go:130-144 | Where the job as a whole goes satisfies what is demanded of a destination, is free unless the job asks, and has room if and only if the job had; a job that has room is refused only by a fault. |
| Transfer.Worker.PlanNothing | backend/internal/worker/transfer.go:152-161 | A source without files is done when the destination directory is made, and only then. |
| Transfer.Worker.ResumeTransferItems | backend/internal/worker/transfer.go:184-244 | From whatever a crash left, the queue holds every open row once, each to go on from what its partial file holds, all rows are completed or queued, and the tallies are the sums over the completed ones. |
| Transfer.Worker.LookAtRow | backend/internal/worker/transfer.go:192-226 | Whatever is on disk: a completed row is in order if and only if it was skipped or its copy is there with its size, with an error for each other case; any other goes on from the size of its partial file if that is no directory and not too large. |
| Transfer.Worker.ResumeRow | backend/internal/worker/transfer.go:192-234 | A completed row stays; any other is queued again with the size of its partial file, unless that is a directory. |
| Transfer.Worker.ResolveConflictDestination | backend/internal/worker/transfer.go:459-481 | Per policy: a free destination is taken, and a file on the way to it is an error; otherwise ask, skip, skip exactly an identical file, remove what is there, the least free sibling or an error exactly if there is none. Only "overwrite" changes files, and only below the destination. |
| Transfer.Worker.CompareForSkip | backend/internal/worker/transfer.go:483-507 | Skips exactly a destination file that is byte for byte the source. |
| Transfer.Worker.FinishMove | backend/internal/worker/transfer.go:509-514 | The stepwise removal of the source keeps the invariant at every step, failed or cut short anywhere, and success leaves nothing below the source. |
| Transfer.Worker.UpdateItemStatus | backend/internal/jobs/store_items.go:77-85 | One row changes, atomically; marking it completed is demanded to be right: full progress and an exact copy, or a skip. |
| Transfer.Worker.CompleteJob | backend/internal/jobs/store.go:188-196 | Whatever the status was, it becomes completed; callers with rows must have all counts at their totals and a moved source gone. |
| Transfer.Worker.FailJob | backend/internal/jobs/store.go:198-206 | Whatever the status was, a cancelled one included, it becomes failed. |
| Transfer.Worker.SetNeedsAttention | backend/internal/jobs/store.go:272-280 | Whatever the status was, the job waits for the user. |
| Transfer.Worker.PauseJob | backend/internal/jobs/store.go:233-244 | Only a running job is paused; otherwise nothing changes. |
| Transfer.Worker.ResumeJob | backend/internal/jobs/store.go:246-257 | Only a paused job is queued again. |
| Transfer.Worker.Cancel | backend/internal/jobs/store.go:114-125 | Exactly a queued, running, paused or waiting job is cancelled; a completed, failed or cancelled one stays as it is. |
| Transfer.Worker.Recover | backend/internal/jobs/store.go:362-395 | After a start a running job is queued with its running rows queued and nothing lost; the invariant holds again for what is on disk, and whether the plan can be finished has not changed. |
| Transfer.Worker.RetryItem | backend/internal/jobs/store_items.go:144-179 | Exactly a failed or cancelled row is queued again, from zero, together with its job if that was failed or cancelled; both change or, at a crash, neither; no file changes, and not whether the plan can be finished. |
| Transfer.Worker.RetryAndRun | backend/internal/jobs/store.go:127-143 | The retry of a whole job, which deletes its rows, and any run after it: while the source was whole nothing of it is lost; what had been copied is kept unless the policy or the user overwrites it. |
| Transfer.Worker.ResolveConflicts | backend/internal/api/handlers_jobs.go:285-390 | Without an answer, a conflict or a waiting job nothing changes; every conflicting row with an answer is settled as answered and every other row is unchanged; what may be removed is only what an "overwrite" named; the job is queued exactly when no conflict is left. |
| Transfer.Worker.SkipRow | backend/internal/api/handlers_jobs.go:350-358 | The row is marked skipped and completed with full progress, and no file changes. |
| Transfer.Worker.OverwriteRow | backend/internal/api/handlers_jobs.go:359-364 | The conflicting destination is removed, nothing outside it, and the row is queued with a free destination. |
| Transfer.Worker.RenameRow | backend/internal/api/handlers_jobs.go:365-373 | The row is queued for the least free sibling; it is left alone only if there is none. |
| Transfer.Worker.ResumeNeedsAttentionJob | backend/internal/jobs/store.go:259-270 | Exactly a job that still waits for the user is queued; one cancelled meanwhile stays cancelled. |
| TransferModel.CompletedMoveKeepsExactlyItsRows | backend/internal/worker/transfer.go:126-128 | After a completed move a source file survives if and only if it has a row that was not skipped. |
| TransferModel.WorkedKeepsOthers | backend/internal/worker/transfer.go:282-291 | Copying one row, its temporary directory included, neither blocks nor frees the way of another row. |
| TransferModel.CanFinishStep | backend/internal/worker/transfer.go:105-109 | Completing one row leaves unchanged whether the plan can be finished. |
| TransferModel.BlockedStays | backend/internal/worker/transfer.go:83-104 | While a row is worked on and not completed, wherever that ends, what is in the way of the plan stays in the way. |
| TransferModel.FreeStays | backend/internal/worker/transfer.go:358-382 | While one row is copied to its temporary file and goes no further, a plan that could be finished still can be. |
| TransferModel.CountsBound | backend/internal/worker/transfer.go:108-113 | The completed rows and one open row together never exceed the total. |
| TransferModel.CountsWhenAllDone | backend/internal/worker/transfer.go:108-113 | With all rows completed the tallies equal the totals. |
| TransferModel.RequeueKeepsSound | backend/internal/jobs/store.go:362-395 | The restart's bulk update keeps the invariant and does not change whether all rows are completed. |
| TransferModel.TempsAreNoTargets | backend/internal/worker/transfer.go:282-291 | No temporary path is another row's or a destination. |
| TransferPlan.MadeStays | backend/internal/worker/transfer.go:255-278 | The directories made for those of the source are not among what a turn removes: neither temporary nor in the source. |
| TransferPlan.TempInjective | backend/internal/worker/transfer.go:282-291 | Different destinations have different temporary paths. |
| TransferPlan.PlanSeparate | backend/internal/worker/transfer.go:246-291 | No item's destination lies on the way to another's destination or temporary file. |
| TransferPlan.PlanIsClear | backend/internal/worker/transfer.go:246-280 | A plan for which there is room can be finished: planning itself puts nothing in the way. |
| TransferPlan.RoomWasThere | backend/internal/worker/transfer.go:246-280 | Conversely, planning ends with a plan that can be finished only where there was room. |
| TransferPlan.RoomThere | backend/internal/worker/transfer.go:130-144 | Resolving the conflict at the destination leaves room if and only if there was room for the policy before. |
| TransferPlan.FreeGroundIsRoom | backend/internal/worker/transfer.go:246-280 | A destination that does not exist, on one device and with nothing in the way of it or of its partial file, has room for any source. |
| TransferPlan.OnePartialEach | backend/internal/worker/transfer.go:282-291 | Whatever sibling the job goes to, the partial file of one source file is never that of another. |
| TransferPlan.SoundFitsAgain | backend/internal/jobs/store.go:127-143 | Whatever a job leaves on disk is fit for the same job from the start: its own partial files are prefixes of what goes there. |
| TransferLimits.ResumedExactly | backend/internal/worker/transfer.go:222-230 | A resumed copy always has the right size, and is the source if and only if the partial file found is a prefix of it. |
| TransferLimits.ResumeOver | backend/internal/worker/transfer.go:332-439 | The loop, the size check and the rename over any partial file: what is published is the found bytes and the rest of the source. |
| TransferLimits.WrongBytesArePublished | backend/internal/worker/transfer.go:222-226 | A leftover of another job that leads to wrong bytes at the destination. |
| TransferLimits.OverwriteFirst | backend/internal/worker/transfer.go:471-474 | The source survives the removal of the destination if and only if it is not inside it, and is then untouched. |
| TransferLimits.OverwriteRemovesItsSource | backend/internal/worker/transfer.go:60-62 | An instance: the check passes and the source is removed. |
| TransferLimits.TargetInsideSource | backend/internal/worker/transfer.go:60-62 | With a destination above the source, an entry's target lies inside the source exactly if the names repeat. |
| TransferLimits.AboveIsSafeExactly | backend/internal/worker/transfer.go:60-62 | A destination above the source is one whose targets keep out of the source if and only if no entry repeats the names between them and no file is named like the first of these. |
| TransferLimits.MoveIntoItselfLoses | backend/internal/worker/transfer.go:509-514 | A finished move removes such a target together with its original. |
| TransferLimits.PartialPlanLosesAFile | backend/internal/worker/transfer.go:126-128 | A state of the invariant, two files and one stored row, in which a completed move has lost a file. |
| TransferLimits.RenameWithoutMark | backend/internal/worker/transfer.go:435-439 | From every state of the invariant: a crash right after the rename leaves the invariant, a whole copy, and a plan that cannot be finished. |
| TransferLimits.CopiedButOpen | backend/internal/worker/transfer.go:105-107 | A state of the invariant with the copy in place, its row open, and the plan past finishing. |
| TransferLimits.OverwriteAfterMove | backend/internal/jobs/store.go:127-143 | After a retried job has removed its destination, a copied file is safe if and only if it is still at its source or its copy lay elsewhere. |
| TransferPlan.QueueMoves | backend/internal/worker/transfer.go:74-113 | After one item is copied and marked, the rest of the queue is as good as before: still free of conflicts, open rows and queue in one-to-one correspondence. |
| TransferPlan.FreeSibling | backend/internal/worker/transfer.go:130-144 | The free sibling chosen by "rename" satisfies all that is demanded of a destination. |
| Volumes.Volume.RenameNoReplace | backend/internal/security/mutate_linux.go:122-134 | Atomic under a crash or a fault: the subtree has moved or nothing has; it fails for a missing source, an existing target, another device, a target below the source. |
| Volumes.Volume.MkdirAll | backend/internal/security/mutate_linux.go:102-120 | Wherever it stops or fails, everything is kept and only directories on the way appear; undisturbed it fails only if a file is on the way. |
| Volumes.Volume.RemoveAt | backend/internal/security/mutate_linux.go:151-179 | Wherever the depth-first removal stops or fails, nothing outside changed and what is left is well formed; success leaves nothing below. |
| Volumes.Volume.RemoveAll | backend/internal/security/mutate_linux.go:181-195 | The same, and a missing entry is no error. |
| Volumes.Volume.Remove | backend/internal/security/mutate_linux.go:197-212 | A file or an empty directory goes; anything else is an error and no change. |
| Volumes.Volume.CreateFile | backend/internal/security/mutate_linux.go:71-73 | Exclusive: an existing entry is an error and is kept. |
| Volumes.Volume.Mkdir | backend/internal/security/mutate_linux.go:93-100 | Exclusive creation of one directory below an existing one. |
| Volumes.Volume.OpenFile | backend/internal/security/mutate_linux.go:75-91 | Opens or creates a file; without truncation existing bytes stay. |
| Volumes.WalkDir | backend/internal/worker/transfer.go:255-278 | Lists the whole subtree, each entry once, each directory before its entries. |
| FileSystem.PrefixOfFullSize | backend/internal/worker/transfer.go:424-430 | A prefix of the original that has its size is the original. |
| FileSystem.MovedContent | backend/internal/security/mutate_linux.go:122-134 | A renamed tree has the same content at its new place. |
| FileSystem.SpliceOfPrefix | backend/internal/api/upload_chunk.go:152-173 | Writing the next part of a file over a prefix of it leaves a prefix. |
| Trash.Entry.TrashWithID | backend/internal/files/service_trash.go:18-82 | From any state an earlier call left, wherever this one stops or fails, the original or the trash copy has all of the content; a repeated call after the move answers and changes nothing; an undisturbed call succeeds if and only if it can answer so, or the entry is there, admissible, free of metadata, and no trash copy is in its way, and leaves the metadata as it was if it fails; each refusal has its cause (across devices: nothing of it that is at the original too); on one device the entry moved whole or is untouched, and the original is untouched or the metadata is there; across devices the latter fails only with a reported fault. |
| Trash.Entry.WriteEntry | backend/internal/files/service_trash.go:232-244 | Metadata is created exclusively: existing metadata is an error and is kept. |
| Trash.Entry.MoveToTrash | backend/internal/files/service_trash.go:246-258 | By rename or by copy and removal, at every step the original or the trash copy has all of the content; success leaves the original gone and the trash copy whole if there was none; undisturbed it succeeds if and only if no trash copy is in the way. |
| Trash.Entry.RemoveOriginal | backend/internal/files/service_trash.go:246-258 | The stepwise removal after a complete copy, cut short or failing anywhere, never harms the copy. |
| Trash.Entry.Restore | backend/internal/files/service_trash.go:120-181 | From any state: without readable metadata, or if something is at the original path while there is a trash or temporary copy, it is refused with its cause and nothing changes; with neither copy nor original nothing is restored and the metadata stays. Otherwise, wherever it stops, the content is whole in the trash, in the temporary copy or back, except for a torn removal, possible only across devices and not for a single file; readable metadata stays until the content is back and the trash and temporary copies are gone; an undisturbed call succeeds if and only if nothing is in the way. |
| Trash.Entry.BringBack | backend/internal/files/service_trash.go:147-176 | One rename, or a copy, a removal and a rename: each stop leaves a resting state, or the torn one across devices. |
| Trash.Entry.RemoveTrash | backend/internal/files/service_trash.go:163-172 | Cut short it leaves the trash copy whole, or gone, or torn, the last only for trees of more than one entry. |
| Trash.Entry.RestoreAfterTear | backend/internal/files/service_trash.go:154-158 | From a torn state a successful restore brings back what is left in the trash and not the whole content. |
| Trash.Entry.DeleteTrash | backend/internal/files/service_trash.go:188-197 | Either the metadata is as it was or both it and the trash copy are gone, so a deletion cut short can be repeated; the original and all other files are untouched; an undisturbed call succeeds if and only if the metadata can be read. |
| Trash.Entry.DeleteInTheEnd | backend/internal/files/service_trash.go:188-197 | However often a deletion is cut short, the first one that is not ends with trash copy and metadata gone. |
| Trash.Entry.TrashAgainAndAgain | backend/internal/worker/trash_jobs.go:10-31 | Any number of trash calls, each cut short anywhere, with restarts in between, lose nothing and change no other file. |
| Trash.Entry.RestoreAgainAndAgain | backend/internal/files/service_trash.go:120-181 | Any number of restores, each cut short anywhere, with restarts in between, on one device or of a single file across devices: the whole content is always in exactly one of its three resting places, and what was not in the way of the first restore is not in the way of the next. |
| Trash.Entry.RestoreInTheEnd | backend/internal/files/service_trash.go:120-181 | However often a restore has been cut short, one that is not ends with the original content at the original path and trash, temporary copy and metadata gone. |
| Trash.ProcessTrash | backend/internal/worker/trash_jobs.go:10-31 | A trash or restore job ends completed or failed unless it crashes; undisturbed, a restore completes if and only if nothing is in its way, and a trash job if and only if its call succeeds; a restore onto an occupied path does not complete and changes nothing; a completed restore has the content back. |
| Trash.Entry.TrashThenRestore | backend/internal/files/service_trash.go:120-181 | Trash followed by restore, undisturbed, gives back the same tree at the same path, with no metadata left and no other file changed. |
| TrashModel.RemovalHasATornMiddle | backend/internal/files/service_trash.go:163-172 | For every directory with entries there is a point in the removal of its trash copy after which an empty directory passes for the whole. |
| TrashModel.FailedRemovalOrphans | backend/internal/files/service_trash.go:76-79 | For every directory with entries there is a point at which a failing removal leaves the trash copy whole, the original not, and, the metadata being dropped, no metadata. |
| TrashModel.LeftFilesBlock | backend/internal/files/service_trash.go:282-308 | From such a state a further copy to the trash finds its way if and only if no file of the original is left. |
| TrashModel.PlacesAreSeparate | backend/internal/files/service_trash.go:18-72 | An admitted entry, its trash copy, its temporary copy and its metadata keep out of each other's way. |
| Copies.CopyPath | backend/internal/files/service_trash.go:282-308 | Nothing that was there changes, wherever it stops; success onto free ground gives the same content, and success at all means that the destination holds it; undisturbed it succeeds if and only if no file is in the way and no file of the source is there already. |
| Copies.CopyFile | backend/internal/files/service_trash.go:260-280 | The destination is created exclusively and never replaced; success means equal bytes. |
| DiskUsage.AnalyzeDisk | backend/internal/worker/worker_analysis.go:27-198 | For every source but `/`: one row for every visible entry with the sums over everything visible below it; each directory row's bytes are the sum of the rows listed under it; exactly one row (if any) has no parent, and it holds the bytes of all file rows. A hidden source has no rows. |
| DiskUsage.VisitedExactly | backend/internal/worker/worker_analysis.go:50-81 | The walk shows an entry if and only if no name from the source's own down to its own begins with a dot and every directory on the way can be read. |
| DiskUsage.RowsAreTheShown | backend/internal/worker/worker_analysis.go:164-198 | There is a row for the public path followed by an entry's names below the source exactly if the entry is there and shown, and its parent is the row without the last name. |
| DiskUsage.ProcessDiskAnalyze | backend/internal/worker/worker_analysis.go:27-198 | A job left alone completes for a directory, with the rows of the analysis, and fails for anything else. |
| DiskUsage.Collect | backend/internal/worker/worker_analysis.go:50-139 | The walk gathers exactly the visible directories and files, each once, every directory starting with the sums of its own files. |
| DiskUsage.BottomUp | backend/internal/worker/worker_analysis.go:141-162 | The accumulators end as the sums over everything below each directory, for any order of equal depths, if and only if the source is not `/` or nothing was collected. |
| DiskUsage.SortByDepth | backend/internal/worker/worker_analysis.go:141-153 | Every directory once, the deeper first. |
| DiskUsage.DeeperIsDone | backend/internal/worker/worker_analysis.go:141-153 | When a directory's turn comes, all its own directories have been added to it. |
| DiskUsage.ReadyIsComplete | backend/internal/worker/worker_analysis.go:154-162 | A directory whose own directories have all been added accounts for its whole subtree. |
| DiskUsage.ReachedStep | backend/internal/worker/worker_analysis.go:154-162 | Adding a complete directory to its parent adds its subtree's share there, itself counted, and changes no other share. |
| DiskUsage.BytesAreListed | backend/internal/jobs/store_analysis.go:83-107 | A directory's subtree sum is its own files plus the subtree sums of its directories. |
| Duplicates.FindDuplicates | backend/internal/worker/worker_analysis.go:305-394 | In whatever order the maps are gone through, the rows are those of plain grouping by size, prefix hash and whole hash of the kept files, each group of two or more once, numbered from one. |
| DuplicateWalk.Gather | backend/internal/worker/worker_analysis.go:227-294 | The walk finds exactly the visible, non-empty files whose information can be read, each once, with what is stored there. |
| DuplicateWalk.SearchTree | backend/internal/worker/worker_analysis.go:200-407 | The search of a directory reports the groups of what its walk finds; stored rows are replaced exactly by results that are not empty. |
| DuplicateWalk.ProcessDuplicateFind | backend/internal/worker/worker_analysis.go:200-407 | A job left alone completes for a directory, with the groups of what its walk finds, and fails for anything else, changing nothing. |
| DuplicateWalk.TreeReportsExactly | backend/internal/worker/worker_analysis.go:200-407 | Two compared files of the tree are reported under one number if and only if what is stored at their paths is equal. |
| Duplicates.OneSize | backend/internal/worker/worker_analysis.go:315-392 | One size adds exactly the groups of that size. |
| Duplicates.ByPrefixHash | backend/internal/worker/worker_analysis.go:348-392 | One prefix pass adds exactly the groups of its size, each prefix once. |
| Duplicates.ByWholeHash | backend/internal/worker/worker_analysis.go:363-392 | One whole-hash pass adds exactly the groups of its size and prefix. |
| Duplicates.DropLinks | backend/internal/worker/worker_analysis.go:322-335 | Of the files of one inode the first stands for all. |
| Duplicates.FirstLinksBySize | backend/internal/worker/worker_analysis.go:306-335 | Dropping links within each size is dropping links altogether. |
| Duplicates.SharedExactlyWhenEqual | backend/internal/worker/worker_analysis.go:363-394 | With an injective hash, two kept files share a group if and only if their contents are equal. |
| Duplicates.ReportedTogetherExactly | backend/internal/worker/worker_analysis.go:376-394 | The same of the result rows: equal group numbers if and only if equal contents. |
| Duplicates.GroupsAreDisjoint | backend/internal/worker/worker_analysis.go:363-394 | Groups are disjoint and have at least two members. |
| Duplicates.GroupsRepeatNoInode | backend/internal/worker/worker_analysis.go:322-335 | No group lists two names of one inode. |
| Duplicates.OrderDoesNotMatter | backend/internal/worker/worker_analysis.go:306-394 | Two searches of the same files report the same groups, up to their numbering. |
| Duplicates.StoreResults | backend/internal/worker/worker_analysis.go:396-403 | The stored rows are the new results if and only if there are results, or nothing was stored before; without results the stored rows stay. |
| Duplicates.Summarize | backend/internal/jobs/store_analysis.go:185-213 | In any row order: the reclaimable bytes plus one file of each group are the bytes of all rows, and the counts are those of the distinct groups and the rows. |
| Duplicates.SearchIsUniform | backend/internal/worker/worker_analysis.go:376-392 | The rows of a search, in any order, meet what the summary needs: one size per group, one id per group. |
| Upload.Session.HandleChunk | backend/internal/api/upload_chunk.go:51-296 | Whatever is sent: an acknowledged chunk brings the offset strictly further; "complete" is answered exactly when the announced size is reached, and then a file of that size lies in the target directory, where no file was replaced unless the policy is to overwrite; each refusal has its condition, which for the sizes, the directory and the job's status is the exact one: a chunk of a cancelled or paused job is refused, the last one like any other, and a paused one changes nothing; the job of a complete upload is completed; a living server always answers; an undisturbed chunk of a live upload is accepted. For a client that sends parts of one file from offsets the server has reached, the partial file stays a prefix of the file and the stored file is the client's. |
| Upload.Session.Refusal | backend/internal/api/upload_chunk.go:58-111 | A request passes if and only if the target is a directory, the chunk has between one byte and 2 MiB, and it ends within an announced size of at most 20 GiB. |
| Upload.Session.WriteChunk | backend/internal/api/upload_chunk.go:152-173 | Whatever part of the chunk arrives, a prefix of the file stays one if the chunk is the file's; the partial file ends where the chunk does or beyond. |
| Upload.Session.FinishUpload | backend/internal/api/upload_chunk.go:240-296 | "Complete" is answered only after what was in the partial file, of the announced size, is in place, and is answered when nothing interferes; the job is then completed, and after a refusal failed. |
| Upload.Session.Finalize | backend/internal/api/upload_common.go:35-80 | The rename publishes what the partial file holds at a free path, the least free name under "rename", the name itself under "overwrite". |
| Upload.Session.ResolveConflict | backend/internal/api/upload_common.go:152-167 | The path given out is free; "ask" refuses exactly an existing destination; only "overwrite" removes anything. |
| Upload.Session.StartJob | backend/internal/api/upload_chunk.go:175-238 | A first chunk's job runs and is on record, or the request fails and the job with it; a failure then drops the partial file and the record. |
| Upload.Session.BeginJob | backend/internal/jobs/store.go:145-156 | Only a queued job is started. |
| Upload.Session.HandleStatus | backend/internal/api/upload_chunk.go:15-49 | The count never exceeds the file's size for an honest client. |
| Upload.Session.UploadFileWithResume | frontend/src/utils/upload.ts:35-80 | The loop ends. When the server answered complete the whole file is in the target directory; the client says complete without that answer if and only if the server's count had reached the size at the start; undisturbed, an upload of admissible size is answered complete; while its job is paused or cancelled nothing is. |
| Upload.Session.TryAgainAndAgain | frontend/src/utils/upload.ts:35-80 | Over any number of tries, aborts, lost replies, pauses, short writes and restarts the partial file is a prefix of the file, and other files are kept. |
| Names.NextAvailablePath | backend/internal/security/paths.go:307-324 | The path if it is free, else the free candidate with the least index, else none of the thousand is free. |
| Names.CandidatesDistinct | backend/internal/security/paths.go:307-324 | The candidates of a path are pairwise distinct. |
| Names.CandidateShape | backend/internal/security/paths.go:307-324 | A candidate lies in the same directory and differs from the path. |
| Names.DecimalInjective | backend/internal/security/paths.go:307-324 | Decimal printing is injective. |
| Names.SearchSucceedsInSmallDirectories | backend/internal/security/paths.go:307-324 | In a directory of at most a thousand entries the search always finds a free path. |
| Lexical.ReduceShape | backend/internal/worker/extract_path.go:12-18 | A cleaned relative path has as many leading `..` as the path ever went above its start, then names only. |
| Lexical.CleanTwice | backend/internal/worker/extract_path.go:12-18 | Cleaning twice is cleaning once, for absolute and relative names. |
| Lexical.RootedLeadsThere | backend/internal/security/paths.go:265-271 | The cleaned form of an absolute path is the place it leads to from the root, part by part, the root being its own parent. |
| Extract.AcceptedExactly | backend/internal/worker/extract_path.go:12-18 | A name is accepted if and only if it is relative and its running depth never drops below zero. |
| Extract.AcceptedParts | backend/internal/worker/extract_path.go:12-18 | The parts of an accepted, cleaned name are names: no `..`, no `.`, nothing empty. |
| Extract.AcceptedAgain | backend/internal/worker/extract_path.go:12-18 | An accepted name, cleaned, is accepted again and is its own cleaned form. |
| Extract.CleanedLeadsThere | backend/internal/worker/extract_path.go:12-18 | The cleaned form leads to the same place as the name itself, and every step of the way stays inside the start. |
| Extract.OpenExtractDirs | backend/internal/worker/extract_open_linux.go:25-54 | Only directories below the destination appear; success ends in the directory the parts name, and comes when no file is on the way. |
| Extract.OpenExtractFile | backend/internal/worker/extract_open_linux.go:73-105 | A rejected name changes nothing; an opened file is the empty file that the name leads to, strictly inside the destination; nothing outside the destination changes; an accepted name with a free way is opened. |
| Roots.Resolve | backend/internal/security/paths.go:99-163 | Each refusal in its case, "outside" if no root contains the place the input leads to; otherwise where the links of the nearest existing part of the path lead, if that is still inside the longest public root. Whatever the links, what is resolved lies inside a root; without links it is the path the root makes of the input. |
| Roots.InputLeadsThere | backend/internal/security/paths.go:252-292 | An input that is not blank and has no control character is taken for the place it leads to: from the root if it is absolute, otherwise from the working directory, and refused exactly if it then ever goes above that. |
| Roots.Follow | backend/internal/security/paths.go:127-157 | The longest existing part of the path is replaced by where it leads, if that can be found out, and the rest is kept. |
| Roots.PublicPath | backend/internal/security/paths.go:165-191 | The path the first of the longest internal roots makes of it, or "outside" exactly if no root contains it. |
| Roots.UniformInverse | backend/internal/security/paths.go:99-191 | With uniform roots the two directions are inverse relations: adding and removing the host prefix, inside some root. |
| Roots.RoundTripExactly | backend/internal/security/paths.go:99-191 | For any roots with distinct public paths, a resolved path is published back if and only if one root is the longest in both directions. |
| Roots.NonUniformDoesNotComeBack | backend/internal/security/paths.go:165-191 | Two roots nested internally but not publicly: a path comes back as another. |
| Roots.InsideIsPrefix | backend/internal/security/paths.go:296-305 | The check on the relative path holds exactly for the root and everything below it. |
| Roots.TextOrder | backend/internal/security/paths.go:105-114 | Among roots that contain a path, the longer text is the longer path, so the choice by text length is the deepest root. |
| Roots.ReadBack | backend/internal/security/paths.go:252-263 | A printed path without control characters is read back as itself. |
| Roots.AdmittedIsClean | backend/internal/security/paths.go:252-263 | An admitted input consists of plain names after cleaning. |
| Roots.NewRootGuard | backend/internal/security/paths.go:43-91 | Public paths of the kept roots are distinct, every given public path keeps a root, and it is the first one given. |
| Roots.GuardIsUniform | backend/internal/config/mounts.go:46-133 | Whatever is configured and discovered on one host, all roots are the host prefix followed by the public path. |
| Roots.SeenFromEitherSide | backend/internal/config/mounts.go:46-86 | A mount listed with the host prefix or as the host sees it gives one and the same root, unless its path itself begins like the prefix. |
| RateLimiter.Limiter.Allow | backend/internal/api/ratelimit.go:48-68 | The answer of the fixed window, with the accepted requests logged under their window; the log stays one of non-overlapping windows with at most the rate in each. |
| RateLimiter.Limiter.Cleanup | backend/internal/api/ratelimit.go:34-46 | Forgets exactly the visitors idle for more than a window, and no log entry's guarantee. |
| RateLimiter.Limiter.FewAccepted | backend/internal/api/ratelimit.go:48-68 | In every reachable state, any half-open interval of a window's length holds at most `2 * rate - 1` accepted requests of a key. |
| RateLimiter.FewInAnyInterval | backend/internal/api/ratelimit.go:48-68 | The same of every log of windows that do not overlap. |
| RateLimiter.BoundIsReached | backend/internal/api/ratelimit.go:48-68 | For every rate a run in which `2 * rate - 1` requests within one window's length, and the one that opened the first window, are all let through. |
| RateLimiter.CleanupChangesNoAnswer | backend/internal/api/ratelimit.go:34-68 | Runs with clean-ups at any moments answer every request as the run without them. |
| Tokens.DecodeUndoesEncode | backend/internal/auth/service.go:150-175 | Unpadded base64url (section 5 of RFC 4648) is read back exactly and has no dot in it. |
| Tokens.ParsePrinted | backend/internal/auth/service.go:177-209 | A printed 64-bit number is read back and has no colon in it. |
| Tokens.ParsesExactly | backend/internal/auth/service.go:192-196 | Exactly a sign, or none, and digits of a 64-bit number are read; beyond that range the bound is read and reported, anything else reads as zero and is reported. |
| Tokens.VerifiesExactly | backend/internal/auth/service.go:163-209 | For every value at all: claims are accepted if and only if the value is two decodable halves around its first dot, the second being the MAC of the first, and the first states those claims in five fields with an expiry not yet past. |
| Tokens.VerifyUndoesSign | backend/internal/auth/service.go:150-209 | For every id, role and 64-bit numbers: the claims are read back if and only if the id has no colon and the time is at most an hour, or seven days, after the issue. |
| Tokens.SignedReadsAs | backend/internal/auth/service.go:163-209 | Past its expiry such a token yields nothing at all. |
| Sessions.Service.Login | backend/internal/auth/service.go:63-86 | A login with the right password hands out a new token with the current role and version, raises that version and nothing else of the accounts, and ends every earlier session of the user; a failed one changes nothing. |
| Sessions.Service.UserFromRequest | backend/internal/auth/service.go:88-117 | A value is accepted for a user if and only if it shows the MAC of an unexpired payload with the user's id, current role and version, so none with a wrong signature is; every revoked token is refused at every time; a current one is accepted exactly until it expires. |
| Sessions.Service.NextVersion | backend/internal/auth/store.go:176-199 | The version strictly increases, so every token handed out for the user before is revoked. |
| Sessions.Service.UpdatePassword | backend/internal/auth/store.go:150-163 | A password change ends all sessions of the user and keeps the role. |
| Sessions.Service.UpdateRole | backend/internal/auth/store.go:201-210 | A role change ends all sessions of the user and keeps the password. |
| Sessions.Service.BumpSessionVersion | backend/internal/auth/store.go:165-174 | Logout and revocation end all sessions of the user and change nothing else. |
| Sessions.Service.DeleteUser | backend/internal/auth/store.go:142-148 | Tokens of a deleted user are revoked for good. |
| Sessions.Service.Run | backend/internal/auth/store.go:150-210 | Over any sequence of logins and changes what is revoked stays revoked, so `UserFromRequest` refuses it in all later states. |
| Scheduling.Worker.ClaimNext | backend/internal/jobs/store_claiming.go:12-63 | The oldest queued job of the kinds asked for becomes running, and no other changes; none is claimed exactly when none waits. |
| Scheduling.Worker.RunOnce | backend/internal/worker/worker.go:44-116 | The job taken is the oldest of the first class, in the fixed order, that has one; on return it is in an end state of its kind, no other job changed, and the set of waiting jobs has lost exactly it. |
| Scheduling.Worker.Drain | backend/internal/worker/worker.go:28-93 | Left alone the worker takes as many turns as jobs waited, and none is left. |
| Scheduling.NextExactly | backend/internal/worker/worker.go:44-93 | The job to take is the most urgent of all that wait, and the oldest of those: trash and restore, then copy and move, extraction and archives, checksums, disk usage, duplicates. |
| Scheduling.ClassesCover | backend/internal/jobs/store_claiming.go:65-79 | The classes together hold every kind of job but uploads. |
| Scheduling.RecoveryLeavesNothingRunning | backend/internal/jobs/store.go:362-395 | The three updates, in their order, leave no job running: trash, restore, copy and move jobs are queued with all their items and keep their place by age, others have failed; settled jobs are unchanged. |
| Scheduling.RecoveryQueuesTheInterrupted | backend/internal/jobs/store.go:362-395 | The set of waiting jobs grows by exactly the interrupted resumable ones. |
| Scheduling.RecoveryTwiceIsOnce | backend/internal/jobs/store.go:362-395 | Recovering twice is recovering once. |

## Left out

Assumptions of the transfer (`TransferModel.Fit`); for the first two, the section on where the code does less gives the
exact condition and an instance in which something is lost without it:

- A job that overwrites does not go to a directory above its source, and one that asks goes to one only if none of its targets meets its source.
- Whatever file lies where one of the job's own partial files goes, for the destination or a sibling of it, is a prefix of what goes there. Leftovers of other jobs elsewhere do not matter.
- No entry of the source, and no name on the way to the destination, is `.volum-tmp`.
- Nothing but the job, and the user through its conflicts, changes the files involved; there are no symbolic links among them.

Weaker than the source, or not modelled:

- Transfer.Worker.RetryItem: retries come between turns of the worker, never while it holds the job; the database's check that the item belongs to the job is the row index.
- Transfer.Worker.Run: the retry of a whole job is not one of the events; it is a theorem of its own (`Transfer.Worker.RetryAndRun`), because the retried job starts from the tree it finds.
- Transfer.Worker.CompareForSkip: the bytes are compared where the code compares SHA-256 sums, which is the same for an injective hash.
- Transfer.Worker.CheckRequest: the mapping of the two paths through the root guard is done once, in the module `Roots`; here paths are internal.
- Transfer.Worker.ResumeRow: a stored row always has its temporary path; the fallback for rows of older versions without one is left out.
- Trash.Entry.RestoreAgainAndAgain: excludes directories across devices, for which the property is false (`RestoreAfterTear`).
- Trash.Entry.constructor: the trashed entry is not itself called `.volum-tmp`, and its temporary copy lies on its own device, as it lies in the same directory.
- Trash.Entry.TrashWithID: sizes, times and names in the metadata are one opaque record that no proper prefix of it can be read as.
- Upload.Session.constructor: the file is not called `.volum-tmp`, and a partial file of that name that is there at the start is a prefix of the file.
- Upload.Session.HandleChunk: requests are handled one at a time; totals and item rows of the upload job are not kept.
- DuplicateWalk.SearchTree: sizes, stability and readability are what the search sees of each file; a search stopped by the user, which stores nothing, is left out.
- DiskUsage.Collect: a directory whose information cannot be read gets no row although its entries do (`worker_analysis.go:86-90`); the model reads the information of every visible entry.
- DiskUsage.AnalyzeDisk: the source's public path is clean, which the joining of row paths relies on (`worker_analysis.go:96-103`); the walk reads one fixed tree, and stops by the user are left out, since a stopped job stores no rows.
- Roots.Resolve: what exists and where links lead does not change during the call; labels and the order of the roots play no part.
- Roots.NewRootGuard: the check that an internal root exists, and the parsing of mount lines, are left out.
- Extract.OpenExtractFile: permission bits and the limits on extracted bytes are left out.
- Scheduling.Worker.RunOnce: what a processor does is any of the ends of its kind, stated with constants shared by the modules; that these are the ends is proved for copy, move, trash, restore, disk analysis and duplicate jobs (`Transfer.Worker.RunOnce`, `Trash.ProcessTrash`, `DiskUsage.ProcessDiskAnalyze`, `DuplicateWalk.ProcessDuplicateFind`). For archives, extraction and checksums, which have no model, it is assumed that they return. Database errors and shutdown are left out.
- Scheduling.Worker.Drain: rests on the same assumption.
- Sessions.Service.Login: users are looked up by id, not by name; bcrypt is an uninterpreted predicate, the MAC an uninterpreted function. A version at the largest 64-bit number is not increased further; the model refuses where SQLite would turn to floating point.
- RateLimiter.Limiter.Allow: the clock is a number that never decreases.

Parts of the repository without a model: HTTP routing and JSON, the user interface, SQL text and migrations, database
failures other than a crash of the process, archives and compression, checksums, search, favourites, services, shares,
avatars, permissions, the multi-file upload and its size queue, listing and paging of results, disk and health checks.
