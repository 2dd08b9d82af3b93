# QFieldCloud: a verified model

This project models the parts of QFieldCloud whose correctness depends on several functions working
together, and proves properties of them. `dafny verify dfyconfig.toml` checks everything.

**The delta pipeline.** Clients send feature edits ("deltas"). `DeltaModel` says what one delta does to
one layer, a layer being its committed features and, in edit mode, its edit buffer. Every answer of QGIS
(a call that declines or raises, default values, feature ids) is a parameter, so a statement for all
answers holds for every behaviour of QGIS. `DeltaApply` runs the loop imperatively, buffer by buffer, and
is proved equal to that model on all paths, the failing ones included. `DeltaSafety` proves that the log
is complete and that the buffered loop refines a fold of atomic effects; `DeltaUndo` that patches are
compare-and-set operations and when a run can be undone in reverse order; `DeltaInverse` when the same file
run with `inverse` undoes it, in the order of the file; `DeltaLaws` says exactly when a create, patch or
delete goes through, conflicts or raises and what it does, on the fields of delta and features alone;
`DeltaLimits` gives the runs for which stronger claims are false. `Workflow` and `WorkflowProofs` model
validation, insertion and the run of a workflow with its feedback; `WorkflowCalls` says what every method receives and what is reported of it. `ApplyJob` and
`ApplyJobProofs` model how the wrapper turns that feedback into job and delta statuses, and `ApplyJobLaws`
gives every ending and every status by its cause. `DeltaPipeline` and `DeltaStatuses` compose all of this:
what the statuses in the database say about the project that was uploaded.

**The job protocol.** `JobProtocol` is a state machine: any number of workers, the dequeue command,
project deletion and the clean-up cron, interleaved statement by statement.

**Interval state.** `Ranges` has half-open time ranges in microseconds. `Packages` and `PackageProofs`
model storage packages and the timeline of quantities; `Subscriptions` models trial pairs, the activation
of drafts and the two overlap checks, and `SubscriptionRows` the rows that every call leaves.

**Versioned storage.** `FileVersions` and `FileVersionProofs` model uploads, purges and deletions with the
cached latest pointer and byte total, `FileCounts` says what the cached count counts, and
`FileLaws` what happens to sizes, stamps and kept versions. `StorageCleaner`
and `CleanerProofs` model the cleaner of deleted objects, from the paged listing to the batched requests;
`CleanerPages` says exactly when it is right about keys that cross pages.

**Memberships, secrets, workers, ranges.** `Membership` and `MembershipProofs` model cascades on member
removal and owner change, and the ranked role view, whose rows `RoleLaws` gives by cases on the tables.
`Secrets` models the priority query and the worker's environment, which `WorkerEnvironment` gives variable by
variable; `SecretOrder` says which secret wins and when the order of the rows decides. `EcsWorkers` is the
protocol between jobs that start tasks and cleaners that stop unknown ones. `RangeHeader` models the parsing of the HTTP Range header. `Prelude` and `Strings` are shared
vocabulary.

Time, the answers of QGIS, of the object storage and of ECS, exit codes and exceptions of foreign code are
parameters. Classes carry the objects and tables that the source updates in place; their methods are
proved against specification functions, and the lemmas are about those functions and about runs of them.

## Where the code does less than it may seem to

These are results about the code as it is, each with a lemma below.

- A refused rollback leaves a dirty edit buffer, and the next delta of the layer commits it.
- A delta on a layer that is not a vector layer ends the run without a log entry, because `rollBack` does
  not exist on that layer and the exception leaves the handler.
- `inverse` walks the file forwards. The file is undone exactly if no patch changed a primary key and the
  patches of each attribute swap between two values and end as the first does; two patches of one attribute
  are not. In reverse order only the first condition would be needed.
- A step of the workflow that is interrupted leaves a feedback without error. If it is one of the last two,
  the job ends FINISHED and its deltas APPLIED although the project was not uploaded.
- Two workers of one project can overlap once one outlives the grace period, and its end then replaces the
  FAILED of the cron, and its entries the cron's ERROR. Two jobs can turn each other away. A job failed by
  its container gets no `finished_at`.
- At an exact end instant the closed comparison takes a package that is over for the active one, also if
  the next one starts then.
- At an exact end instant with a successor, a draft subscription cannot be activated.
- `clean()` of subscriptions rejects empty ranges that the constraint accepts.
- Every listing page is judged for itself. A deleted key whose history is split over two pages can be
  resurrected by the cleaner, and a live key can lose older versions.
- `latest_version_count` is never lowered: it counts uploads.
- Deleting a query set of memberships over two organizations removes rows of members that stay.
- Changing the owner needs a seat for the old owner.
- Two teams of one project can give a person two roles of equal rank; the view then picks either.
- The unique constraints on secrets treat nulls as distinct and include the type, so that several unassigned
  secrets of one name are possible, and assigned ones of both types; the result then depends on row order.
  Reserved names override secrets, and a secret can
  replace the custom certificate authority.
- The cleanup of ECS tasks can stop a task between its start and the saving of its id.
- The Range header rejects some ranges that RFC 9110 accepts and accepts a trailing newline.

## Model

| member | source | states |
|---|---|---|
| JobProtocol.AtMostOneActiveJobPerProject | docker-app/worker_wrapper/wrapper.py:236-261 | In every reachable state of any number of workers with cron, dequeue and deletion interleaved, at most one job per project is past the concurrency check and still STARTED |
| JobProtocol.OverlapNeedsStaleJob | docker-app/qfieldcloud/core/cron.py:53-92 | Two workers of a project are past the check together only if the cron failed the row of one that has run for longer than WORKER_TIMEOUT_S + 10 |
| JobProtocol.ActiveJobTurnsOthersAway | docker-app/worker_wrapper/wrapper.py:241-261 | While a job is past the check and STARTED, every other job of the project that counts backs off, and its row is then PENDING without start time |
| JobProtocol.CheckCountsIff | docker-app/worker_wrapper/wrapper.py:244-261 | After the check a job must back off exactly if some other job of its project is QUEUED or STARTED, and runs on otherwise |
| JobProtocol.CronFailsIff | docker-app/qfieldcloud/core/cron.py:53-92 | The cron fails exactly the rows that are QUEUED or STARTED since more than WORKER_TIMEOUT_S + 10, and changes nothing else |
| JobProtocol.DequeueTakesFreeJob | docker-app/qfieldcloud/core/management/commands/dequeue.py:70-104 | A pending job that is dequeued is held by no worker |
| JobProtocol.DeletionLeavesWorkers | docker-app/worker_wrapper/wrapper.py:282-291 | A project can be deleted at any time; its rows are gone and its workers go on without them |
| JobProtocol.OutlivingTheGracePeriod | docker-app/worker_wrapper/wrapper.py:345-348 | For every grace period, a run in which two workers of a project overlap, and a worker's FINISHED replaces the cron's FAILED |
| JobProtocol.FinalStatusChangesIff | docker-app/qfieldcloud/core/cron.py:53-92 | In a reachable state an action replaces the final status of a row exactly if the row is FAILED, its worker announced the job and has outlived the grace period, and the action is its backing off or its successful end |
| JobProtocol.BothCanBackOff | docker-app/worker_wrapper/wrapper.py:252-261 | A run in which two jobs of a project both have to back off |
| DeltaApply.DeltaApplier.GetFeature | docker-qgis/qfc_worker/commands/apply_deltas.py:752-783 | The scan finds no feature, one, or more than one with the primary key |
| DeltaApply.DeltaApplier.CompareFeature | docker-qgis/qfc_worker/commands/apply_deltas.py:989-1053 | The list built in the loop is the list of conflicting names |
| DeltaApply.DeltaApplier.RestoreStamped | docker-qgis/qfc_worker/commands/apply_deltas.py:785-849 | Delta values win over defaults that QGIS also applies on update, all other attributes stay |
| DeltaApply.DeltaApplier.CreateFeature | docker-qgis/qfc_worker/commands/apply_deltas.py:785-849 | Buffer and failure after a create equal the specification on every path |
| DeltaApply.DeltaApplier.PatchAttrsOf | docker-qgis/qfc_worker/commands/apply_deltas.py:910-938 | Attributes are changed one by one, and a failure leaves the earlier ones changed |
| DeltaApply.DeltaApplier.PatchFeature | docker-qgis/qfc_worker/commands/apply_deltas.py:851-938 | Buffer and failure after a patch equal the specification, partial edits included |
| DeltaApply.DeltaApplier.DeleteFeature | docker-qgis/qfc_worker/commands/apply_deltas.py:941-986 | Buffer and failure after a delete equal the specification |
| DeltaApply.DeltaApplier.TryDelta | docker-qgis/qfc_worker/commands/apply_deltas.py:422-519 | Start of editing, edit and commit of one delta equal the specification of one attempt |
| DeltaApply.DeltaApplier.ApplyDelta | docker-qgis/qfc_worker/commands/apply_deltas.py:415-607 | One iteration with both exception handlers equals one step of the loop |
| DeltaApply.DeltaApplier.ApplyDeltasWithoutTransaction | docker-qgis/qfc_worker/commands/apply_deltas.py:403-609 | The whole loop ends in the state of the step function folded over the deltas, or where an exception left it |
| DeltaSafety.LogIsComplete | docker-qgis/qfc_worker/commands/apply_deltas.py:520-609 | One log entry per delta in order; the loop answers true iff all are Applied; after an exception the log is a prefix ending in the only UnknownError, or without an entry if the handler itself raised |
| DeltaSafety.EditIsEffect | docker-qgis/qfc_worker/commands/apply_deltas.py:785-986 | A completed edit, made attribute by attribute, is the atomic effect of its delta |
| DeltaSafety.HeadsAreCleanIff | docker-qgis/qfc_worker/commands/apply_deltas.py:568-569 | No layer has pending edits at any loop head exactly if no delta failed in edit mode with its rollback refused |
| DeltaSafety.StepIsAtomic | docker-qgis/qfc_worker/commands/apply_deltas.py:415-607 | From clean layers, an applied delta has its whole effect, any other none, except one that raised after its commit |
| DeltaSafety.LoopRefinesFold | docker-qgis/qfc_worker/commands/apply_deltas.py:403-609 | The buffered loop refines a pure fold: committed layers are the initial ones with exactly the Applied deltas' effects in order |
| DeltaLaws.CreateCompletesIff | docker-qgis/qfc_worker/commands/apply_deltas.py:785-849 | Exactly when a create completes; then the new feature has the delta's value for every field it names, the default of QGIS for every other, its geometry, and all other features are as they were |
| DeltaLaws.CreateRaisesIff | docker-qgis/qfc_worker/commands/apply_deltas.py:785-849 | Exactly when a create raises |
| DeltaLaws.PatchCompletesIff | docker-qgis/qfc_worker/commands/apply_deltas.py:851-938 | Exactly when a patch completes, overwriting or not: both sides, one feature with the primary key, agreement with the old values or `overwrite_conflicts`, and geometry and all changed attributes accepted; then that feature has the new values and geometry, and nothing else changes |
| DeltaLaws.PatchRaisesIff | docker-qgis/qfc_worker/commands/apply_deltas.py:851-938 | Exactly when a patch raises instead of failing |
| DeltaLaws.DeleteCompletesIff | docker-qgis/qfc_worker/commands/apply_deltas.py:941-986 | Exactly when a delete completes: one feature with the primary key that has every old value, or `overwrite_conflicts`; then that feature alone is gone |
| DeltaLaws.DeleteRaisesIff | docker-qgis/qfc_worker/commands/apply_deltas.py:941-986 | Exactly when a delete raises instead of failing |
| DeltaLaws.ConflictIff | docker-qgis/qfc_worker/commands/apply_deltas.py:881-898 | An edit is refused as a conflict exactly if it patches or deletes without overwriting and the one feature with the key differs from an old value; it then touches nothing |
| DeltaLaws.ConflictNames | docker-qgis/qfc_worker/commands/apply_deltas.py:1024-1053 | The names reported with a refused edit are those of the fields that differ |
| DeltaLaws.UnknownMethodFails | docker-qgis/qfc_worker/commands/apply_deltas.py:477-478 | Any other method fails |
| DeltaLaws.InverseSwapsSides | docker-qgis/qfc_worker/commands/apply_deltas.py:1089-1106 | With `inverse` an edit is that of the delta with its sides swapped, a missing one read as null, and its method kept |
| DeltaLaws.StatusIff | docker-qgis/qfc_worker/commands/apply_deltas.py:415-607 | From clean layers, exactly when an iteration logs Applied, Conflict, ApplyFailed, UnknownError or nothing, with which names, whether it leaves the loop, and which layers it leaves |
| DeltaUndo.ConflictsAreDisagreements | docker-qgis/qfc_worker/commands/apply_deltas.py:1024-1053 | The reported names are exactly the layer fields on which feature and delta disagree |
| DeltaUndo.PatchIsCompareAndSet | docker-qgis/qfc_worker/commands/apply_deltas.py:851-938 | Without overwriting, an applied patch found one feature with all old values, set the new ones and changed nothing else |
| DeltaUndo.LookupAfterPatch | docker-qgis/qfc_worker/commands/apply_deltas.py:752-783 | After a patch its feature is found again exactly if the primary key was kept |
| DeltaUndo.UndoRestores | docker-qgis/qfc_worker/commands/apply_deltas.py:1089-1106 | After a run of applied patches, their inverses in reverse order are all applied exactly if no patch changed a primary key, and then every attribute of every feature is restored |
| DeltaInverse.InverseRunSucceedsIff | docker-qgis/qfc_worker/commands/apply_deltas.py:403-416 | After a run that applied every patch of a file, the same file run with `inverse` in file order is applied exactly if no patch changed a primary key and, for every attribute of every feature, the patches naming it swap between two values and end as the first does; and then every attribute is restored |
| DeltaInverse.SeparatePatchesAreUndone | docker-qgis/qfc_worker/commands/apply_deltas.py:403-416 | It is enough that no primary key changes and no attribute that a patch changes is named by another patch of its feature |
| DeltaInverse.EvenChangesAreNotUndone | docker-qgis/qfc_worker/commands/apply_deltas.py:403-416 | It fails whenever an even number of patches name an attribute of a feature that the first of them changes, two patches of one attribute for instance |
| DeltaInverse.ThereAndBackIsUndone | docker-qgis/qfc_worker/commands/apply_deltas.py:403-416 | Three patches that change one attribute back and forth are undone in file order, so that naming the same attribute does not rule it out |
| DeltaLimits.RefusedRollbackLeaks | docker-qgis/qfc_worker/commands/apply_deltas.py:568-569 | A run whose log says failed, applied, and in which the failed delta's edit was committed |
| DeltaLimits.NonVectorLayerEndsRun | docker-qgis/qfc_worker/commands/apply_deltas.py:423-424 | A delta on a layer that is not a vector layer raises out of the loop and has no log entry |
| Workflows.Workflow.Validate | docker-qgis/qfc_worker/workflow.py:41-95 | Accepts exactly the valid workflows; an error is a fault of the first step that is not in order |
| Workflows.Workflow.ValidateStep | docker-qgis/qfc_worker/workflow.py:61-93 | Accepts a step exactly if its call is acceptable and its references precede it; an error names a fault that is there |
| Workflows.Workflow.Reindex | docker-qgis/qfc_worker/workflow.py:97-103 | The index map holds the last position of each id and no other id |
| Workflows.Workflow.InsertStep | docker-qgis/qfc_worker/workflow.py:105-140 | Inserts before or after the named step, keeps the index map exact, and refuses both or neither anchor and unknown ids without change |
| Workflows.Workflow.RunSteps | docker-qgis/qfc_worker/workflow.py:195-269 | The loop with its stages equals the run function; stages are 2 before the step that stopped it and 1 at it, whether it raised or was interrupted |
| Workflows.Workflow.WriteFeedback | docker-qgis/qfc_worker/workflow.py:300-325 | The feedback lists every step and the outputs of those at stage 2, or raises if an output is not a return value |
| Workflows.Workflow.RunWorkflow | docker-qgis/qfc_worker/workflow.py:223-337 | Stages and feedback after the whole run; an interruption (KeyboardInterrupt or SystemExit) stops it and is dropped by the `return` of the `finally` block |
| WorkflowProofs.ValidationIsSound | docker-qgis/qfc_worker/workflow.py:41-95 | In a validated workflow whose methods return enough values no lookup fails and no call is rejected: only a method that raises or is interrupted can stop it, or a missing temporary directory before the first step |
| WorkflowProofs.FaultlessIff | docker-qgis/qfc_worker/workflow.py:61-93 | A step may follow the ones before it exactly if it has none of the faults that validation names |
| WorkflowProofs.InsertKeepsValidIff | docker-qgis/qfc_worker/workflow.py:105-140 | Inserting keeps a workflow valid exactly if the id is fresh and its references precede its position |
| WorkflowProofs.FeedbackTellsStages | docker-qgis/qfc_worker/workflow.py:270-325 | From fresh steps the stages are 2..2, 1 for the step that stopped the run, 0..0, with outputs for exactly those at stage 2; an error in the feedback means that some step is not at stage 2, and a missing one although some step is not means exactly that a step was interrupted |
| WorkflowProofs.FeedbackIsReturnedIff | docker-qgis/qfc_worker/workflow.py:310-323 | In a validated workflow the feedback is returned exactly if every completed step's outputs are among its return names |
| WorkflowCalls.ValidIff | docker-qgis/qfc_worker/workflow.py:41-95 | Validity spelled out: distinct ids, keyword parameters only, every required one and no unknown one given, references to return values of earlier steps only |
| WorkflowCalls.CallsAreConnected | docker-qgis/qfc_worker/workflow.py:246-269 | In a validated workflow every method that is called receives for each argument the constant, the path, or the value that the earlier step gave under the name; the k-th name gets the k-th value; the run ends with the first method that raises or is interrupted |
| WorkflowCalls.StepFailsIff | docker-qgis/qfc_worker/workflow.py:250-269 | In any workflow, exactly when a step fails without a call, and when its result cannot be bound to its names |
| WorkflowCalls.FeedbackReports | docker-qgis/qfc_worker/workflow.py:300-325 | The feedback has for every step that returned what its method gave under its return names, the output names of it under `outputs`, and nothing for the others |
| ApplyJob.Database.FailTerminatedJobs | docker-app/qfieldcloud/core/cron.py:53-92 | One pass of the cron: every stale job is failed and the deltas and rows of stale apply jobs are set to ERROR, nothing else changes |
| ApplyJob.ApplyDeltaJobRun.BeforeDockerRun | docker-app/worker_wrapper/wrapper.py:583-598 | All deltas of the job and their rows are STARTED, or nothing changes |
| ApplyJob.ApplyDeltaJobRun.AfterDockerRun | docker-app/worker_wrapper/wrapper.py:600-636 | The feedback entries are recorded in order up to an exception |
| ApplyJob.ApplyDeltaJobRun.AfterDockerException | docker-app/worker_wrapper/wrapper.py:642-660 | The listed deltas and rows are ERROR; nothing happens if they were never listed |
| ApplyJob.ApplyDeltaJobRun.Run | docker-app/worker_wrapper/wrapper.py:227-383 | The whole run, from the concurrency check to the final status, on all three tables, with any passes of the cron while the container runs |
| ApplyJobProofs.RecordedIsLast | docker-app/worker_wrapper/wrapper.py:604-636 | Recording gives each delta and row the status of its last entry and leaves the others |
| ApplyJobProofs.AppliedIff | docker-app/worker_wrapper/wrapper.py:299-348 | A run sets a delta APPLIED exactly if it ends FINISHED and the delta's last entry says applied, whatever the cron did in the meantime |
| ApplyJobProofs.EndedLeavesNoneStarted | docker-app/worker_wrapper/wrapper.py:583-660 | If every delta has an entry wherever a delta feedback is read, a run that ends FINISHED or FAILED leaves none STARTED |
| ApplyJobProofs.FinalRow | docker-app/worker_wrapper/wrapper.py:318-383 | Final status and times of the job row on every path, over what the cron has written; a failed container leaves `finished_at` as it was, and other rows are as the cron leaves them |
| ApplyJobProofs.FinishedAfterCron | docker-app/worker_wrapper/wrapper.py:600-636 | What a late worker leaves of the cron's ERROR: a run that ends FINISHED gives every row the status of its delta's last entry, and one without entry is ERROR if the cron came by after the grace period and STARTED if not |
| ApplyJobLaws.EndsIff | docker-app/worker_wrapper/wrapper.py:227-383 | Exactly how a run ends: turned away iff another job of the project is QUEUED or STARTED; FINISHED iff the hook before does not raise, the exit code is 0, the file is read, has no error and a delta feedback, and its recording is not interrupted |
| ApplyJobLaws.FinishedStatusIff | docker-app/worker_wrapper/wrapper.py:604-636 | After a FINISHED run a delta and its row are APPLIED, CONFLICT, NOT_APPLIED or ERROR exactly if its last entry says applied, conflict, failed or unknown error |
| ApplyJobLaws.FailedStatus | docker-app/worker_wrapper/wrapper.py:642-660 | A FAILED run leaves all its deltas and rows at ERROR, or all as they were if the hook before it raised before listing them |
| ApplyJobLaws.OthersStay | docker-app/worker_wrapper/wrapper.py:600-660 | Other jobs, their rows and the deltas neither listed nor in the feedback are as the cron leaves them |
| ApplyJobLaws.CronSets | docker-app/qfieldcloud/core/cron.py:53-92 | Row by row and delta by delta, exactly what a pass of the cron sets to FAILED and ERROR |
| DeltaPipeline.ApplyChangesIsValid | docker-qgis/qfc_worker/commands/apply_deltas.py:1130-1185 | The workflow of the apply command passes validation |
| DeltaPipeline.CleanFileMeansAllDone | docker-qgis/qfc_worker/workflow.py:223-337 | A feedback file without error comes from a run in which all five steps, the upload included, returned, exactly if none was interrupted; it has a delta feedback exactly if the apply step returned, and this is the whole log |
| DeltaPipeline.AppliedMeansUploaded | docker-app/worker_wrapper/wrapper.py:600-636 | A run sets a delta APPLIED exactly if it ends FINISHED with the delta Applied in the log; then the edit was committed, and after a FINISHED run every workflow step, the upload included, has returned exactly if neither of the last two was interrupted |
| DeltaPipeline.FinishedUploadMatchesDatabase | docker-app/worker_wrapper/wrapper.py:336-348 | After a FINISHED run without refused rollback, the layers to upload are the downloaded ones with the effects of exactly the deltas the database calls APPLIED, in order, and they have been uploaded exactly if neither of the last two steps was interrupted |
| DeltaPipeline.InterruptedUploadFinishes | docker-qgis/qfc_worker/workflow.py:223-337 | If only the upload is interrupted, the run ends FINISHED although the upload has not returned |
| DeltaPipeline.EndedRunLeavesNoneStarted | docker-app/worker_wrapper/wrapper.py:583-660 | End to end, a run that ends FINISHED or FAILED leaves none of its deltas STARTED |
| DeltaStatuses.StatusIsLogged | docker-app/worker_wrapper/wrapper.py:604-636 | End to end, after a FINISHED run every delta of the file and its row have the status of its entry in the loop's log |
| DeltaStatuses.DatabaseStatusIff | docker-app/worker_wrapper/wrapper.py:604-636 | And without refused rollbacks a delta is APPLIED exactly if its edit succeeded on the features as the earlier deltas had left them, CONFLICT exactly if it was a conflict there, and NOT_APPLIED otherwise |
| DeltaStatuses.ApplyStepsReceive | docker-qgis/qfc_worker/commands/apply_deltas.py:1130-1185 | Which arguments each of the five steps receives, the two flags of the job included |
| Ranges.OverlappingIffSharedInstant | docker-app/qfieldcloud/subscription/sql_config.py:19-30 | The constraint's overlap of half-open ranges, empty ones included, is a shared instant |
| Packages.StoragePackages.SetPackageQuantity | docker-app/qfieldcloud/subscription/models.py:775-823 | The transaction's rows and outcome; every error leaves the rows as they were |
| PackageProofs.NeverTwoActive | docker-app/qfieldcloud/subscription/models.py:802-812 | After the future packages are deleted the query for the active one never finds two, in spite of closed comparisons |
| PackageProofs.SucceedsIff | docker-app/qfieldcloud/subscription/models.py:786-821 | Exactly when a premium call is accepted by the database, for any requested start |
| PackageProofs.OutcomeIff | docker-app/qfieldcloud/subscription/models.py:775-823 | Exactly which error a call ends with, and which package a successful one reports as ended and as created |
| PackageProofs.WholeSecondsSucceed | docker-app/qfieldcloud/subscription/models.py:786-821 | With whole-second stamps a call whose start is not in an earlier second never fails |
| PackageProofs.SetKeepsSound | docker-app/qfieldcloud/subscription/sql_config.py:19-30 | A successful call keeps ranges disjoint and proper, leaves at most one future package, which is open-ended, and keeps stamps whole |
| PackageProofs.SetTimeline | docker-app/qfieldcloud/subscription/models.py:775-823 | The timeline at every instant after a call: history up to the call or the start, the quantity in force just before held until the start, then the new quantity |
| PackageProofs.InForceIsHeldIff | docker-app/qfieldcloud/subscription/models.py:389-396 | The quantity in force at "now" is held exactly if it was in force just before, which holds unless a package starts or ends at "now" |
| PackageProofs.EndInstantRevivesPackage | docker-app/qfieldcloud/subscription/models.py:389-396 | At its end instant a package that is over is extended until the new start |
| PackageProofs.RunsKeepInv | docker-app/qfieldcloud/subscription/models.py:775-823 | After any run of calls with a clock that does not run backwards, rows are sound, future packages open-ended and non-empty packages created in the order of their starts |
| PackageProofs.FutureQuantityIsEventual | docker-app/qfieldcloud/subscription/models.py:758-773 | In every reachable state, at every instant, the future quantity is what the timeline shows in the end exactly if the plan is premium or the timeline shows none in the end |
| PackageProofs.ChangedQuantityIsDifference | docker-app/qfieldcloud/subscription/models.py:658-668 | In every reachable state the changed quantity is the future one less the active one; the active one is none without a premium plan, the quantity in force just before at an instant at which a package ends, and the quantity in force at every other instant |
| PackageProofs.EndInstantShowsOldPackage | docker-app/qfieldcloud/subscription/models.py:745-756 | A reachable state in which the active quantity at an end instant is that of the ended package |
| Subscriptions.AccountSubscriptions.Save | docker-app/qfieldcloud/subscription/models.py:1048-1079 | Checks of `clean()` and of the database in order, and the stored row |
| Subscriptions.AccountSubscriptions.CreateSubscription | docker-app/qfieldcloud/subscription/models.py:976-1046 | Rows and result of creating a trial pair or a single subscription; a stored trial stays if its follow-up is refused |
| Subscriptions.AccountSubscriptions.UpdateSubscription | docker-app/qfieldcloud/subscription/models.py:873-898 | The bulk update and the saved row as one transaction |
| Subscriptions.CleanAgainstConstraint | docker-app/qfieldcloud/subscription/models.py:1048-1075 | `clean()` rejects nothing non-empty that the constraint accepts; exactly which overlaps it overlooks |
| Subscriptions.EmptyIsRejectedForNothing | docker-app/qfieldcloud/subscription/models.py:1048-1075 | An empty range that `clean()` rejects although the constraint accepts it |
| Subscriptions.TrialPairSucceedsIff | docker-app/qfieldcloud/subscription/models.py:976-1046 | A trial pair can be stored exactly if every existing range is over when it starts |
| Subscriptions.TrialPairCovers | docker-app/qfieldcloud/subscription/models.py:988-1041 | Then ranges stay disjoint, every instant from the start on is covered exactly once, and nothing earlier changes |
| Subscriptions.ActivationSucceedsIff | docker-app/qfieldcloud/subscription/models.py:873-898 | Exactly when a draft can be activated at t >= now |
| Subscriptions.ActivationCovers | docker-app/qfieldcloud/subscription/models.py:873-898 | With nothing upcoming and no range ending now, activation succeeds and from t on the draft alone covers every instant |
| Subscriptions.EndInstantBlocksActivation | docker-app/qfieldcloud/subscription/models.py:448-460 | At an end instant with a successor the activation fails although nothing is upcoming |
| SubscriptionRows.ActivatedRows | docker-app/qfieldcloud/subscription/models.py:873-898 | After an activation every other running subscription is cancelled and ends at its start, the draft has the given status, start and end, and nothing else changes |
| SubscriptionRows.UpdatedRows | docker-app/qfieldcloud/subscription/models.py:891-896 | Every other update changes the given fields of its row alone |
| SubscriptionRows.NoSuchRowIff | docker-app/qfieldcloud/subscription/models.py:873-880 | An update without fields changes nothing; any other of a row that does not exist is refused |
| SubscriptionRows.ActivationRefusedIff | docker-app/qfieldcloud/subscription/models.py:873-898 | Why an activation from any instant on is refused: a running subscription would end before it starts, one that was ended overlaps another, or the draft itself is refused |
| SubscriptionRows.TrialRows | docker-app/qfieldcloud/subscription/models.py:976-1046 | Status, start and end of trial and follow-up |
| SubscriptionRows.SingleRows | docker-app/qfieldcloud/subscription/models.py:1008-1042 | Status and whole-second start of a subscription without trial |
| SubscriptionRows.RefusedIff | docker-app/qfieldcloud/subscription/models.py:1048-1079 | Exactly when `clean()`, the range check and the constraint refuse a row, in terms of instants |
| FileVersions.ProjectFiles.AddVersion | docker-app/qfieldcloud/filestorage/models.py:172-263 | File row, version row, latest pointer and count after one more version |
| FileVersions.ProjectFiles.Upload | docker-app/qfieldcloud/filestorage/view_helpers.py:136-191 | The transaction of an upload: version and recomputed bytes, or nothing |
| FileVersions.PreviousVersion | docker-app/qfieldcloud/filestorage/models.py:365-371 | The version found is the latest upload of the file before the given one |
| FileVersions.ProjectFiles.PreDelete | docker-app/qfieldcloud/filestorage/signals.py:8-21 | Only a deleted latest version changes the pointer, to the previous version |
| FileVersions.ProjectFiles.Purge | docker-app/qfieldcloud/filestorage/helpers.py:12-41 | Keeps exactly the package versions and the project-file versions with less than k newer ones, k being the project's own setting if the plan is premium and there is one, else the plan's number; raises exactly if k is 0; a pointer moves only if its version is deleted, and then to an earlier upload |
| FileVersions.ProjectFiles.DeleteVersion | docker-app/qfieldcloud/filestorage/view_helpers.py:384-452 | Refuses the only version and unknown ones; else removes it, repairs the pointer and recomputes the bytes |
| FileVersions.ProjectFiles.DeleteFile | docker-app/qfieldcloud/filestorage/view_helpers.py:402-452 | Removes the file with all its versions and recomputes the bytes |
| FileVersions.ProjectFiles.Save | docker-app/qfieldcloud/project/models.py:1004-1038 | The byte total is the sum over project-file versions, whatever the order of summation, and at least one version is kept |
| FileVersionProofs.PurgeKeepsNewest | docker-app/qfieldcloud/filestorage/helpers.py:19-41 | A purge leaves the min(n, keep) newest versions of every project file |
| FileLaws.PurgeLeavesNewest | docker-app/qfieldcloud/project/models.py:601-618 | A purge of a project leaves the min(n, k) newest versions of every file, with k from project setting and plan as above |
| FileLaws.TotalIsSum | docker-app/qfieldcloud/project/models.py:1004-1038 | After any run the byte total is the sum of the sizes of all versions of project files, however listed, packages not counted |
| FileLaws.UploadRaisesTotal | docker-app/qfieldcloud/filestorage/view_helpers.py:136-191 | An upload without purged versions raises the total by its size; a package file leaves it alone |
| FileLaws.DeletionLowersTotal | docker-app/qfieldcloud/filestorage/view_helpers.py:384-452 | The deletion of a version lowers the total by its size |
| FileLaws.UploadStores | docker-app/qfieldcloud/filestorage/models.py:172-263 | File, size and both stamps of the new version row; pointer and count of the file row; nothing else changes |
| FileLaws.SavedSetting | docker-app/qfieldcloud/project/models.py:1004-1038 | Saving keeps the project's own number of versions, takes over the plan's without one, and fails exactly if that is 0 |
| FileVersionProofs.PurgeMovesNoPointer | docker-app/qfieldcloud/filestorage/helpers.py:12-41 | In every state that runs reach a purge moves no pointer, so that its whole result is the deletion and the saved byte total |
| FileVersionProofs.NextOfPrevious | docker-app/qfieldcloud/filestorage/models.py:364-380 | Next and previous version are inverse to each other |
| FileVersionProofs.StepKeepsInv | docker-app/qfieldcloud/filestorage/view_helpers.py:136-199 | Every upload with its purge, every version deletion and file deletion keeps pointers, byte total and counts |
| FileVersionProofs.FilesStayConsistent | docker-app/qfieldcloud/filestorage/models.py:204-263 | After any run with a strictly increasing clock every file has a version, its pointer is at the newest, the byte total is exact, and the count never understates |
| FileCounts.CountIsUploads | docker-app/qfieldcloud/filestorage/models.py:258-261 | After any run the cached count is the number of uploads stored since the file row was created, which is the number of versions plus that of the versions removed since |
| FileCounts.CountIsExactIff | docker-app/qfieldcloud/filestorage/models.py:258-261 | So it is the number of versions exactly if none was removed since the file row was created |
| FileCounts.CountOverstates | docker-app/qfieldcloud/filestorage/models.py:258-261 | A run of two uploads after which a purge has left one version and a count of two |
| StorageCleaner.IterAllVersions | scripts/object_storage_cleaner/purge_deleted_objects.py:78-125 | The stream of all pages, each sorted for itself |
| StorageCleaner.AnalyzeKeyHistory | scripts/object_storage_cleaner/purge_deleted_objects.py:128-176 | Selection, size and count of one group |
| StorageCleaner.IterLogicallyDeleted | scripts/object_storage_cleaner/purge_deleted_objects.py:232-284 | The buffered grouping yields the deleted ones among the maximal runs of equal keys |
| StorageCleaner.Bucket.PermanentlyDelete | scripts/object_storage_cleaner/purge_deleted_objects.py:319-345 | The requests sent are the versions in batches, and the storage is what these requests leave |
| CleanerProofs.SortedIsInOrder | scripts/object_storage_cleaner/purge_deleted_objects.py:106-125 | The stable sort puts each key's history together, newest first, a version before a marker of the same time |
| CleanerProofs.ListingIsArranged | scripts/object_storage_cleaner/purge_deleted_objects.py:106-125 | If no key crosses a page, the stream is a permutation of the listing with each key's history together and headed by its newest entry |
| CleanerProofs.SelectsDeletedKeys | scripts/object_storage_cleaner/purge_deleted_objects.py:232-284 | Then exactly the entries of the keys whose newest entry is a marker not after the cutoff are selected, each as often as listed |
| CleanerProofs.AnalysisSays | scripts/object_storage_cleaner/purge_deleted_objects.py:128-176 | What is reported of a deleted key: time of the marker, all its entries and their number |
| CleanerProofs.TotalOfParts | scripts/object_storage_cleaner/purge_deleted_objects.py:156-170 | The reported size counts every version once and no marker |
| CleanerProofs.BatchesPartition | scripts/object_storage_cleaner/purge_deleted_objects.py:319-345 | Batches hold the versions in order, are not empty, have at most 1000, and all but the last are full |
| CleanerProofs.CleaningRemovesDeletedKeys | scripts/object_storage_cleaner/purge_deleted_objects.py:179-345 | Every other key keeps its whole history, and of the deleted keys nothing stays but what a request failed to delete |
| CleanerProofs.SplitHistoryResurrects | scripts/object_storage_cleaner/purge_deleted_objects.py:106-125 | A key split over two pages loses its marker and keeps an old version |
| CleanerPages.SelectionIsExactIff | scripts/object_storage_cleaner/purge_deleted_objects.py:232-284 | For any listing, whatever crosses its pages, the selection is exact if and only if every group of the stream is judged as the whole history of its key would be |
| CleanerPages.SelectionIsExactByPagesIff | scripts/object_storage_cleaner/purge_deleted_objects.py:106-284 | Where no page begins with the key with which the stream before it ends, that is exactly: on every page the newest entry of a key decides as its newest entry overall does |
| CleanerPages.EntryIsJudgedByItsPage | scripts/object_storage_cleaner/purge_deleted_objects.py:106-284 | There an entry that is listed once is deleted exactly if the newest entry of its key on its own page is a marker not after the cutoff |
| CleanerPages.LiveKeyLosesHistory | scripts/object_storage_cleaner/purge_deleted_objects.py:106-284 | A key whose newest entry is a version and that loses an older version, because its later page begins with a marker |
| Membership.Tables.RemoveMember | docker-app/qfieldcloud/core/models.py:855-869 | Tables after the deletion of one membership |
| Membership.Tables.RemoveMembers | docker-app/qfieldcloud/core/models.py:754-775 | Tables after the deletion of a query set of memberships |
| Membership.Tables.AddMember | docker-app/qfieldcloud/core/models.py:841-873 | A row is stored exactly if the organization exists, the person is neither its owner nor a member, and a seat is left; the conditions that every run keeps still hold |
| Membership.Tables.AddTeamMember | docker-app/qfieldcloud/core/models.py:968-981 | A row is stored exactly if the team exists, the person is not in it and is member or owner of its organization; the conditions that every run keeps still hold |
| Membership.Tables.AddCollaborator | docker-app/qfieldcloud/core/models.py:1110-1136 | A row is stored exactly if the project exists, there is none yet, the collaborator is neither its owner nor an organization and, on an organization's project, belongs to it or is one of its teams; the conditions that every run keeps still hold |
| MembershipProofs.RefusedMemberIff | docker-app/qfieldcloud/core/models.py:841-873 | Exactly why a new member is refused |
| MembershipProofs.RefusedTeamMemberIff | docker-app/qfieldcloud/core/models.py:968-981 | Exactly why a new team member is refused |
| MembershipProofs.RefusedCollaboratorIff | docker-app/qfieldcloud/core/models.py:1110-1136 | Exactly why a new collaborator is refused |
| Membership.Tables.ChangeOwner | docker-app/qfieldcloud/core/models.py:711-742 | Tables after a change of the owner, or unchanged on refusal |
| MembershipProofs.StepKeepsInv | docker-app/qfieldcloud/core/models.py:711-869 | Every operation keeps: owners are no members, team members and persons collaborating on an organization's project belong to it |
| MembershipProofs.RunsKeepInv | docker-app/qfieldcloud/core/models.py:841-1132 | So it holds in every reachable state |
| MembershipProofs.PrivateRolesIff | docker-app/qfieldcloud/core/sql_config.py:16-118 | Exactly who has a row in the role view for a private project of an organization |
| RoleLaws.RoleIff | docker-app/qfieldcloud/core/sql_config.py:16-118 | Which row the view keeps, with its role and incognito flag: that of the first source that applies among owner of the project, owner and admin member of its organization, own collaboration, some team's collaboration, and reader of a public project |
| RoleLaws.StrangersRead | docker-app/qfieldcloud/core/sql_config.py:88-101 | Who has nothing to do with a project is reader if it is public and has no role if it is not |
| RoleLaws.CollaboratorsHaveTheirRole | docker-app/qfieldcloud/core/sql_config.py:58-71 | A collaborator that is neither owner nor admin has exactly the role and incognito flag of that row |
| MembershipProofs.RemovedMemberHasNoRole | docker-app/qfieldcloud/core/sql_config.py:16-118 | A removed member that is not the owner has no row for the organization's private projects |
| MembershipProofs.RoleIsUniqueIff | docker-app/qfieldcloud/core/sql_config.py:98-118 | The row that the view keeps is determined exactly if a source ranked above the teams gives one, or all teams that give one agree on the role |
| MembershipProofs.TwoTeamsGiveTwoRoles | docker-app/qfieldcloud/core/sql_config.py:98-118 | A reachable state in which the view may keep either of two roles |
| MembershipProofs.OwnerIsAdmin | docker-app/qfieldcloud/core/sql_config.py:32-43 | The organization's owner is admin of its projects, whatever else gives that person a role |
| MembershipProofs.QuerysetDeleteIff | docker-app/qfieldcloud/core/models.py:754-775 | Query-set deletion equals the deletion of the same memberships one by one through their instances, in any order, exactly if no row joins an organization and a member of different selected rows |
| MembershipProofs.OneOrganizationIsExact | docker-app/qfieldcloud/core/models.py:754-775 | Within one organization both kinds of deletion agree |
| MembershipProofs.OwnerChangeRemovesMember | docker-app/qfieldcloud/core/models.py:711-742 | A successful change of the owner is the instance deletion of the new owner's membership, with its team rows and collaborations, and an admin membership for the old owner |
| MembershipProofs.TwoOrganizationsDeleteTooMuch | docker-app/qfieldcloud/core/models.py:754-775 | A selection over two organizations that removes a team row of a member that stays |
| MembershipProofs.OwnerChangeSucceedsIff | docker-app/qfieldcloud/core/models.py:711-742 | Exactly when a change of the owner is refused for lack of a seat |
| Secrets.GetEnvironment | docker-app/worker_wrapper/wrapper.py:160-200 | The environment built by the loop over the secrets |
| Secrets.ReturnsHighestLevel | docker-app/qfieldcloud/core/models.py:1550-1589 | For every name one secret is returned, of the highest level that has the name, whatever the row order |
| SecretOrder.ReturnsWhatNothingBeats | docker-app/qfieldcloud/core/models.py:1550-1589 | The same on the columns: one secret for every name that concerns user and project, project before organization and then assigned before unassigned |
| Secrets.OverlaysFourLayers | docker-app/qfieldcloud/core/models.py:1550-1589 | With at most one secret per level and name, sorting and keeping the first equals overlaying four maps |
| SecretOrder.OrderIsIrrelevantIff | docker-app/qfieldcloud/core/models.py:1550-1589 | What is returned under a name is the same for every order of the rows exactly if all applicable rows of the highest level that has the name are equal |
| SecretOrder.OrderDecidesIff | docker-app/qfieldcloud/core/models.py:1707-1728 | Under the unique constraints the order decides exactly if two different rows of that level have one scope and are unassigned or of different types |
| SecretOrder.UnassignedDuplicatesAreArbitrary | docker-app/qfieldcloud/core/models.py:1707-1728 | Two unassigned secrets that the constraints allow, for which the row order decides |
| SecretOrder.BothTypesAreArbitrary | docker-app/qfieldcloud/core/models.py:1707-1728 | Two assigned secrets of different types that the constraints allow, for which the row order decides |
| Secrets.SecretsDoNotCollide | docker-app/worker_wrapper/wrapper.py:160-177 | Secrets of different names never overwrite each other, and only a secret of its name replaces a variable set before |
| Secrets.SecretReachesWorkerIff | docker-app/worker_wrapper/wrapper.py:168-198 | A secret reaches the worker under its name exactly if the name is not reserved |
| Secrets.CertificateReachesWorkerIff | docker-app/worker_wrapper/wrapper.py:163-171 | The custom certificate authority reaches the worker unless a secret of its name has another value |
| WorkerEnvironment.EnvironmentIs | docker-app/worker_wrapper/wrapper.py:160-200 | All variables of the worker and the values of the reserved ones: the service file, the names of the extra variables, and what job and deployment contribute |
| WorkerEnvironment.ServiceValuesOfParts | docker-app/worker_wrapper/wrapper.py:171-175 | In the service file every service secret has its value, in its place, and no other secret is in it |
| EcsWorkers.CleanupSparesSavedTasks | docker-app/worker_wrapper/executors/ecs.py:311-385 | A stopped task is in an existing row only if it was started before the cleaner's read and saved after it |
| EcsWorkers.UnsavedTaskIsStopped | docker-app/worker_wrapper/executors/ecs.py:271-277 | A reachable state in which the task of an existing row is stopped |
| EcsWorkers.PassStopsItsOrphans | docker-app/worker_wrapper/executors/ecs.py:369-388 | A pass that comes to its end has sent a stop request for every task that it found unknown and for no other, whatever else happened and whichever requests failed |
| EcsWorkers.OrphansAreFound | docker-app/worker_wrapper/executors/ecs.py:364-369 | What a pass finds unknown is all it has listed that no row has; with nothing unknown it ends |
| EcsWorkers.LeftoverIsStopped | docker-app/worker_wrapper/executors/ecs.py:320-385 | A reachable state in which the running task of a deleted row is stopped |
| EcsWorkers.OrphanCleanup.TryBegin | docker-app/worker_wrapper/executors/ecs.py:335-345 | A pass begins exactly if none did within the interval; over all calls of one process the passes are those that `PassesAreApart` is about |
| EcsWorkers.PassesAreApart | docker-app/worker_wrapper/executors/ecs.py:335-345 | Passes of one process are at least 60 s apart, and every call is within 60 s of one |
| EcsWorkers.WaitUntilStopped | docker-app/worker_wrapper/executors/ecs.py:171-189 | The wait ends at the first poll that finds the task stopped or the deadline reached, after a bounded number of polls |
| RangeHeader.AcceptedIff | docker-app/qfieldcloud/filestorage/utils.py:173-206 | Exactly which headers are accepted, and with which numbers |
| RangeHeader.PrintedRangeParses | docker-app/qfieldcloud/filestorage/utils.py:173-206 | Printing a range and parsing it gives the same numbers |
| RangeHeader.RangeIsInside | docker-app/qfieldcloud/filestorage/utils.py:220-257 | Every returned range is inside the file, with the length of its bounds and not below the minimum |
| RangeHeader.OutcomeIff | docker-app/qfieldcloud/filestorage/utils.py:220-257 | Exactly when there is no range, an invalid one or one below the minimum |
| RangeHeader.StricterThanStandard | docker-app/qfieldcloud/filestorage/utils.py:190-206 | For headers with one range: accepted ranges are read as section 14.1.2 of RFC 9110 does, and exactly which ranges of the standard are rejected, those that count bytes from the end included |
| RangeHeader.TrailingNewlineIsAccepted | docker-app/qfieldcloud/filestorage/utils.py:190-193 | A final newline is accepted |

## Left out

- QGIS, Qt and libqfieldsync internals, WKT parsing and the conversion of typed values: their outcomes are parameters.
- Passthrough layers, the committedFeaturesAdded signal and the primary keys it reports (`modified_pk`): another write path and a report only.
- `session_role`, project locks and the log texts of jobs: no effect on the modelled statuses.
- rollback_deltas, cleanup_backups, thumbnails and package generation: not on the modelled path.
- Workflows in which one step object occurs twice, and the directories that a working-directory argument makes.
- The order of keyword arguments: they are mappings, and the first fault found among several is any of them.
- Docker, boto3, S3, WebDAV and file-system calls: only their outcomes are modelled.
- The feedback file is read as one value: whether the exit code of the container agrees with it is left open.
- Delta ids in the log are taken to be the ids of the database rows, as the clients set both.
- The cron's reading of stale jobs and its bulk update are one step in the job protocol; a run that starts between them is not modelled.
- What the cron does to the tables of an apply job outside the time in which its container runs; the job protocol has the job rows at every point.
- Interruptions of a workflow between two steps or while the feedback is written: a step is interrupted, or none is.
- Projects of an apply job that are deleted while it runs: the run ends where the wrapper notices.
- Packages of several types: the repository has one type, and the constraint does not tell types apart.
- Billing periods, seats bought, notifications and the plan of a subscription.
- The order in which the bulk update of subscriptions is checked: the final rows decide.
- FileVersions.ProjectFiles.Purge: where a latest version is itself among the purged ones, its contract says that the pointer moves to an earlier upload or is cleared, but not to which, as the order of the signal handlers decides; no reachable state has this.
- The contents of stored files, their checksums and paths, and the QGIS version of a project file.
- Deletions by the cleaner while its listing goes on: the pages are taken as they were listed.
- Deletion of users, transfer of projects, invitations and the plan's collaborator limit.
- Assertions on roles that the secrets query makes outside production.
- The JSON text of the list of extra variables: it is the set of names.
- Reading of CloudWatch logs: its loop depends on tokens of the service.
- Failing calls of `describe_tasks`, and retries of `run_task`.
- Unicode digits in a Range header, and numbers longer than Python's conversion limit.
- Views, serializers, admin pages, permissions, settings, migrations and infrastructure code: plumbing.
- Clock skew and database failures: clocks do not run backwards and single statements are atomic.
