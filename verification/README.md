# RoboGuide verification models

Dafny models of the algorithms and concurrent protocols in RoboGuide's tools and local adapters, with proofs about
all inputs and all runs. `dafny verify dfyconfig.toml` checks the whole project. Nothing here executes the original
programs.

| module | what it models |
|---|---|
| `Dag`, `PlanAdmission`, `PrimitiveTasks`, `DagPanel` | the frontier loop that admits a plan, the graph theory behind it, what its checks of a Task decide, and the console's layering of the same plan |
| `SegmentRunner`, `PrimitiveBridge`, `MissionSystem` | the planning-segment loop, the durable primitive store and its worker, and both together with the Controller as one interleaved system |
| `ExecutionStore`, `BoundedWorkers` | the map adapter's execution table with its workers, cancellations and restarts; its request permits |
| `Wrappers` | optional values and set sizes, shared by the others |
| `PosixPath`, `MapArchive`, `MapImport` | path strings; packing, validating and extracting a map bundle; the immutable-import protocol under crashes |
| `FaultTimeline`, `HiddenExit` | the fault injector, its timeline and verdict; the process wrapper that hides the injected exit, and the cleanup of the children |
| `EventArchive` | the paged event archive and the one-shot export of the same log |
| `SiteLinks` | the rewriting and validation of documentation links |
| `DeploymentProfile` | the one-pass checks of a deployment inspection |

Code that changes state is a class or a loop with a contract; every concurrent protocol is also a transition system
whose atomic steps are the lock sections, SQL transactions and file operations of the code. `Run(states, actions)` is
an arbitrary finite run, and theorems about runs quantify over all of them.

## Assumptions

- SHA-256 is injective: a digest is modelled as the bytes it was computed from (`MapImport`).
- An SQLite transaction and an atomic rename happen as one step or not at all.
- Starting a thread either fails without a thread or succeeds.
- The Controller does not dispatch a Mission with a terminal status any further, and reports Completed only once the
  Mission's local executions are terminal (`MissionSystem`).
- A map directory or artifact file changes only through the steps of `MapImport`. Deleting a directory (`Remove`) and a
  Robonix save into an existing one (`SaveOver`) are among them; the theorems that need it exclude them by name, and
  only for directories that are recorded or about to be.
- A page request of an honest server answers with some of the next rows and with none only at the end of the log
  (`EventArchive.Honest`).
- `list.extend` over a generator appends its elements one at a time, so each pin sees the ones before it
  (`DeploymentProfile`).

## What turned out false, and exactly when it holds

- The runner can report success without a confirmed last Mission: when it breaks off after the Controller has that
  Mission, by a lost or refused submission or a broken wait, the verdict still uses the flags of the segment before it
  (`MisreportedIff`, `StaleFlagMisreports`).
- The primitive budget holds whenever no Task is committed twice (`BudgetHoldsExactly`), but nothing keeps a committed
  Task from being dispatched and committed again. The excess is at most the repeated commits of the last Mission
  (`BudgetHolds`), and every excess occurs (`BudgetAttained`).
- An execution that is unfinished at a restart is never run or finished again, and its request keeps its handle
  (`RestartAbandons`, `AbandonedForever`). Besides a restart only an SQL failure at one of three places loses an
  execution (`AbandonedIffLost`).
- The console draws a task at depth two or more in the wrong column unless its deepest dependency is listed before it
  (`ColumnsExactIff`, `PlanListingMisdraws`); the order returned by admission is always drawn exactly.
- Two builds that overlap can change an artifact between its hash and its extraction; the record is faithful exactly
  when the file held the same bytes at both moments (`FaithfulIffArtifactUnchanged`, `OverlappingBuildsMisrecord`).
- Records become unfaithful exactly by two kinds of step: deleting or saving over a recorded directory, and recording an
  import whose directory was deleted or saved over since its rename (`FaithfulStepIff`, `TouchedWindowMisrecords`).
  After a deletion a failed import can leave other content under the old row, and importing the old artifact is then
  reported as already contained (`DeletedDirectoryMisreports`). Deleting a directory without provenance does no harm
  and is the way out of the rename window (`DeletedOrphanCanBeImported`).
- A packed directory can be imported again exactly when it has at most 10,000 files within the byte limit and no two
  of them are names of one inode (`BuildThenImport`). A published bundle is not importable exactly when its tree
  loses a file, has a path that is a file and a directory, or fails the database test (`PublishedNotImportableIff`);
  repeating one file is enough (`RepeatedFileNeverImported`).
- The injector's milestones are strictly ordered exactly when the registration is emitted at most once; after a failed
  write the polling loop swallows the failure and emits it again (`StrictIffRegisteredOnce`,
  `LostRegistrationRepeats`).
- The exit mark outlives a failed injection: a genuine later exit stays hidden until cleanup (`InjectedCrashIsHidden`,
  `GenuineExitIsHidden`). The cleanup reaps every child exactly when none outlives SIGKILL (`StopProcesses`).
- The paged archive refuses a complete log that fills its last page: with 1000 pages of 1000 events the limit is
  999,000 (`PagedAgreesWithExport`).
- A rewritten link leads to its page exactly when the relative path holds no '#'; a percent-encoded '#' makes the
  validator look for another file (`RewrittenLinkLeadsToPage`, `EncodedHashIsReported`).
- The decoded path of a link is not checked again: a link is sent to a path outside the repository exactly when neither
  path is mirrored, the raw one names nothing and the decoded one names a directory or a file outside
  (`SentOutsideIff`, `EncodedParentLeadsOutside`).
- A clean run injects a fault when an agent is named; its verdict is valid exactly when no trigger is persisted
  (`CleanVerdictIff`, `CleanRunInjects`).

## Model

| member | source | states |
|---|---|---|
| `Dag.RoundIsLongestChain` | tools/e2-generic/dag_policy.py:161-182 | the frontier index of a task is the length of its longest dependency chain |
| `Dag.RoundIncomparable` | tools/e2-generic/dag_policy.py:161-182 | two tasks of one frontier are incomparable under the transitive dependency relation |
| `Dag.StuckHasCycle` | tools/e2-generic/dag_policy.py:162-164 | when tasks remain and none is ready, the remaining tasks contain a cycle |
| `Dag.CycleNeverDone` | tools/e2-generic/dag_policy.py:161-182 | no task of a cycle ever completes, however many rounds are run |
| `Dag.FinishesIffAcyclic` | tools/e2-generic/dag_policy.py:161-182 | the rounds complete every task if and only if the graph is acyclic |
| `Dag.SerialShapeIffSingletonRounds` | tools/e2-generic/dag_policy.py:165-167 | exactly one task is ready in every round if and only if the plan is acyclic with an order in which each task directly depends on its predecessor |
| `Dag.HamiltonianChainIsOnlyOrder` | tools/e2-generic/dag_policy.py:165-167 | such an order is the only topological order |
| `PlanAdmission.PassFrontier` | tools/e2-generic/dag_policy.py:168-182 | the loop over one frontier accepts it exactly when every task passes and, in the partial-order profile, no robot occurs twice; a refusal names its cause |
| `PlanAdmission.AdmitFrontier` | tools/e2-generic/dag_policy.py:168-182 | the same against the tasks' own checks, with the entries in order |
| `PlanAdmission.RunRound` | tools/e2-generic/dag_policy.py:161-182 | one turn of the loop completes exactly the next frontier, shrinks the remaining set, and refuses only with a justified reason |
| `PlanAdmission.OrderTasks` | tools/e2-generic/dag_policy.py:158-183 | the loop terminates; acceptance implies the profile's shape and the schedule, rejection is justified by a cycle, a branch, a reused robot or a failing task |
| `PlanAdmission.ValidatePlan` | tools/e2-generic/dag_policy.py:125-183 | accepts exactly the admissible plans and returns their schedule; a refusal names what is wrong with the plan |
| `PlanAdmission.ScheduleIsTopological` | tools/e2-generic/dag_policy.py:161-183 | the returned order is a permutation sorted by longest chain with ties in plan order, every dependency before its dependents |
| `PlanAdmission.SerialScheduleIsTheChain` | tools/e2-generic/dag_policy.py:165-183 | a serial plan is returned in its one and only topological order |
| `PlanAdmission.NoneReadyMeansCycle` | tools/e2-generic/dag_policy.py:163-164 | the cycle refusal comes with a cycle of the plan |
| `PlanAdmission.FrontierWidth` | tools/e2-generic/dag_policy.py:168-174 | a frontier of an admitted partial-order plan is at most as wide as the number of robots |
| `PlanAdmission.TaskCountBound` | tools/e2-generic/dag_policy.py:158-183 | an admitted partial-order plan has at most (robots) x (tasks on a chain of it) tasks |
| `PrimitiveTasks.SyntaxIff` | tools/e2-generic/dag_policy.py:220-227 | the syntax check accepts exactly the strings of the eight written forms: a verb and one reference, or a placement verb and two references with its own word between them |
| `PrimitiveTasks.CheckIs` | tools/e2-generic/dag_policy.py:186-227 | a Task passes exactly when its fields are sound for an agent of the request and a written action; the result then holds that agent, the availability of that action to it, and the Task's own id, dependencies and parameters |
| `PrimitiveTasks.FaultIsReal` | tools/e2-generic/dag_policy.py:186-227 | the fault reported for a Task is true of its fields |
| `PrimitiveTasks.ContractNamesAgent` | tools/e2-generic/dag_policy.py:210-212 | the contract that a Task must name belongs to one agent only |
| `PrimitiveTasks.WellFormedIff` | tools/e2-generic/dag_policy.py:148-157 | the checks before the loop pass exactly when ids are distinct and every Task depends on other Tasks of the plan, on each at most once |
| `PrimitiveTasks.AdmittedTasksAreSound` | tools/e2-generic/dag_policy.py:158-183 | every Task of an admitted plan is sound, and one without dependencies has an action available now |
| `PrimitiveTasks.ReturnedEntries` | tools/e2-generic/dag_policy.py:158-183 | the returned list holds one entry per Task with its own id, dependencies and parameters, dependencies first |
| `DagPanel.Layers` | console/js/panels.js:107-116 | the drawing loop's columns partition the tasks by the single-pass depth, in listing order |
| `DagPanel.ColumnsExactIff` | console/js/panels.js:107-116 | the single-pass depths are the longest chains if and only if deepest dependencies are listed first |
| `DagPanel.DependencyOrderDrawsRightwards` | console/js/panels.js:107-116 | in dependency order every column is exact and every edge goes to a strictly larger column |
| `DagPanel.ScheduledPlanDrawnExactly` | console/js/panels.js:107-116 | in the order of admission the column, the longest chain and the frontier index are the same number |
| `DagPanel.PlanListingMisdraws` | console/js/panels.js:107-116 | a plan listed last-first puts its deepest task into the wrong column |
| `SegmentRunner.Runner.Run` | tools/e2-generic/run_dag.py:392-610 | whatever the world answers, exactly the segments whose predecessors all lead on to them and whose plan is admitted are posted, in order; the flags are those of the last concluded wait |
| `SegmentRunner.RunsAreSafe` | tools/e2-generic/run_dag.py:392-610 | in every run a plan is posted only after every earlier Mission completed, or failed with non-empty terminal evidence on both sides, and it fits into the steps that are left |
| `SegmentRunner.PostedPlansAreSound` | tools/e2-generic/run_dag.py:456-477 | every posted plan is that of its own segment, carries its Mission id, and all its Tasks are sound for the configured task and the robots of that segment |
| `SegmentRunner.DecisionIs` | tools/e2-generic/run_dag.py:523-610 | on the fields of the evidence: when the goal counts as reached, and exactly when another segment follows |
| `SegmentRunner.ReportsSuccessIff` | tools/e2-generic/run_dag.py:523-636 | a run reports success if and only if the goal holds at the end and the last wait that ended shows a completed Mission, an accepted cancellation after the goal, or a guarded local cancellation |
| `SegmentRunner.MisreportedIff` | tools/e2-generic/run_dag.py:477-560 | success without a confirmed last Mission is reported exactly when the run breaks off after the Controller has that Mission (a lost or refused submission, a broken wait) and the Mission before it left a flag |
| `SegmentRunner.UnbrokenRunReportsTruly` | tools/e2-generic/run_dag.py:634-636 | a run that does not break off this way reports success only for a confirmed Mission |
| `SegmentRunner.StaleFlagMisreports` | tools/e2-generic/run_dag.py:611-636 | for every such end of a second Mission there is a world whose run misreports |
| `PrimitiveBridge.PrimitiveStore.Open` | integrations/coherent-local-eaios/coherent_local_eaios/generic_bridge.py:132-160 | reopening the database fails every unfinished row and changes nothing else |
| `PrimitiveBridge.PrimitiveStore.CreateOrGet` | integrations/coherent-local-eaios/coherent_local_eaios/generic_bridge.py:162-189 | one row per invocation; a repeated request gets the existing row |
| `PrimitiveBridge.PrimitiveStore.Transition` | integrations/coherent-local-eaios/coherent_local_eaios/generic_bridge.py:266-291 | the row changes exactly when it is in the expected state |
| `PrimitiveBridge.PrimitiveStore.Complete` | integrations/coherent-local-eaios/coherent_local_eaios/generic_bridge.py:217-251 | graph step and terminal row change together, exactly when the step count is the expected one and the row is running |
| `PrimitiveBridge.PrimitiveStore.Fail` | integrations/coherent-local-eaios/coherent_local_eaios/generic_bridge.py:253-264 | fails a row that is not terminal and leaves a terminal one alone |
| `PrimitiveBridge.StepsCountCompletions` | integrations/coherent-local-eaios/coherent_local_eaios/generic_bridge.py:431-557 | in every run the step count is the number of completed rows, and a running worker's commit is never refused |
| `PrimitiveBridge.TerminalRowsForever` | integrations/coherent-local-eaios/coherent_local_eaios/generic_bridge.py:129-291 | rows are never removed and terminal rows never change, across restarts |
| `PrimitiveBridge.CommitsAtMostOnce` | integrations/coherent-local-eaios/coherent_local_eaios/generic_bridge.py:217-251 | no execution is committed twice in any run |
| `PrimitiveBridge.RunningIsExecuting` | integrations/coherent-local-eaios/coherent_local_eaios/generic_bridge.py:431-557 | a row is RUNNING only while the worker executes it, restarts included |
| `PrimitiveBridge.TakenAtMostOnce` | integrations/coherent-local-eaios/coherent_local_eaios/generic_bridge.py:431-449 | no invocation is started twice, whatever becomes of it |
| `PrimitiveBridge.EndHistory` | integrations/coherent-local-eaios/coherent_local_eaios/generic_bridge.py:217-291 | every ended row was ended by one step and is as that step wrote it: a commit completes, the goal guard cancels with its mark, a cancellation without, an exception or a restart fails |
| `PrimitiveBridge.EndsAsWritten` | integrations/coherent-local-eaios/coherent_local_eaios/generic_bridge.py:487-557 | conversely each of these steps ends an unfinished row exactly so |
| `MissionSystem.RunKeepsInv` | tools/e2-generic/run_dag.py:392-610 | the invariant of runner, Controller and bridge holds in every reachable state |
| `MissionSystem.NoOverlappingMissions` | tools/e2-generic/run_dag.py:477-610 | every earlier Mission was seen to be over and is over for good; unfinished local work belongs to the last one |
| `MissionSystem.EvidenceIsTheRows` | tools/e2-generic/run_dag.py:515-536 | the local evidence is terminal exactly when the Mission has rows and all are terminal, and shows the goal guard, completions and failures exactly when rows do |
| `MissionSystem.RunStaysWithinSegments` | tools/e2-generic/run_dag.py:392-467 | at most one Mission per segment, none beyond the limit, and no planning once the budget is spent |
| `MissionSystem.SegmentsCountBegins` | tools/e2-generic/run_dag.py:392-467 | the segment number counts the segments begun, submitted or not; at most one more than the limit begins |
| `MissionSystem.StopsOnlyBy` | tools/e2-generic/run_dag.py:392-610 | which steps stop the runner; a refused plan does not |
| `MissionSystem.BudgetHolds` | tools/e2-generic/run_dag.py:255 | over a whole run the committed steps exceed 2 x ground truth + 1 by at most the repeated commits of the last Mission's Tasks |
| `MissionSystem.BudgetHoldsExactly` | tools/e2-generic/run_dag.py:392-467 | with at most one committed primitive per admitted Task, however often it is dispatched, the committed steps never exceed 2 x ground truth + 1 |
| `MissionSystem.BudgetAttained` | tools/e2-generic/run_dag.py:392-467 | the bound is attained: for every ground truth and every excess a run spends the budget over its segments and exceeds it by exactly that many repeated commits |
| `ExecutionStore.ExecutionStore.CreateOrGet` | integrations/robonix-map-service/robonix-map-service.py:126-166 | one handle per request, new exactly when the request was unknown |
| `ExecutionStore.ExecutionStore.Update` | integrations/robonix-map-service/robonix-map-service.py:176-187 | changes state and detail of a row that is not terminal, and nothing else |
| `ExecutionStore.ExecutionStore.RequestCancel` | integrations/robonix-map-service/robonix-map-service.py:189-211 | sets the flag of a row that is not terminal and never its state |
| `ExecutionStore.RunKeepsInv` | integrations/robonix-map-service/robonix-map-service.py:360-434 | the invariant over submits, reads, cancels, worker steps, SQL failures and restarts |
| `ExecutionStore.RowsOnlyMoveForward` | integrations/robonix-map-service/robonix-map-service.py:176-211 | states only move forward; a terminal row's state, detail and flag never change |
| `ExecutionStore.AtMostOnce` | integrations/robonix-map-service/robonix-map-service.py:360-434 | a request has one handle for good and its operation is invoked at most once, restarts included |
| `ExecutionStore.OutcomeIsTheOperations` | integrations/robonix-map-service/robonix-map-service.py:404-434 | an execution that ended without SQL failures and was not cancelled is COMPLETED exactly when its one invocation succeeded, FAILED exactly when it raised, with the first 2000 characters of what it said |
| `ExecutionStore.FaultedNeverCompletes` | integrations/robonix-map-service/robonix-map-service.py:404-434 | an execution with an SQL failure never ends COMPLETED |
| `ExecutionStore.FaultFailsOrAbandons` | integrations/robonix-map-service/robonix-map-service.py:411-434 | which SQL failures lead to FAILED and which lose the worker |
| `ExecutionStore.DetailsUntilTheEnd` | integrations/robonix-map-service/robonix-map-service.py:126-211 | the detail of an accepted, a started and a cancelled row that is not terminal |
| `ExecutionStore.RestartAbandons` | integrations/robonix-map-service/robonix-map-service.py:311-324 | a restart abandons exactly the unfinished executions: their rows stay and no thread knows them |
| `ExecutionStore.AbandonedForever` | integrations/robonix-map-service/robonix-map-service.py:360-434 | nothing ever runs an abandoned execution again: state, invocations and the request's handle stay for good |
| `ExecutionStore.AbandonedIffLost` | integrations/robonix-map-service/robonix-map-service.py:311-434 | in every run an unfinished execution has neither a place in the queue nor a worker if and only if a restart, or an SQL failure at one of three places, lost it |
| `ExecutionStore.FlagIsHistory` | integrations/robonix-map-service/robonix-map-service.py:189-211 | the durable flag says exactly whether a cancellation was recorded so far |
| `ExecutionStore.FenceIsHistory` | integrations/robonix-map-service/robonix-map-service.py:740-743 | the reading of the fence belongs to the one fence of the execution and reports the cancellations before it |
| `ExecutionStore.CancelledIffRecordedBeforeFence` | integrations/robonix-map-service/robonix-map-service.py:404-434 | an execution that ran to its end is CANCELLED if and only if its cancellation was recorded before the fence; then its operation was never invoked, else exactly once |
| `ExecutionStore.LateCancelNeverCancels` | integrations/robonix-map-service/robonix-map-service.py:189-211 | a cancellation recorded after the fence can no longer end CANCELLED |
| `BoundedWorkers.Transport.Configure` | integrations/robonix-map-service/robonix-map-service.py:879-895 | accepts exactly the limits 1..1024 with a timeout up to 900 seconds, and yields the state every run starts from |
| `BoundedWorkers.Transport.TryAcquire` | integrations/robonix-map-service/robonix-map-service.py:908 | takes a permit exactly when one is free |
| `BoundedWorkers.Transport.Release` | integrations/robonix-map-service/robonix-map-service.py:925 | returns a permit exactly when the bounded semaphore is below its limit |
| `BoundedWorkers.PermitsConserved` | integrations/robonix-map-service/robonix-map-service.py:906-945 | free and held permits add up to the limit, the active count is between zero and the held ones, no release goes beyond the limit |
| `BoundedWorkers.PermitReturnedOnce` | integrations/robonix-map-service/robonix-map-service.py:915-925 | a connection returns its permit at most once and only after it took one |
| `BoundedWorkers.ClosedGaveBack` | integrations/robonix-map-service/robonix-map-service.py:921-945 | a connection that came to its end did return it |
| `BoundedWorkers.ServedOnlyWhenStarted` | integrations/robonix-map-service/robonix-map-service.py:915-919 | a connection is served only after its thread was started |
| `BoundedWorkers.StartedServesUntilFinish` | integrations/robonix-map-service/robonix-map-service.py:927-945 | a connection whose thread was started is served until its handling finishes |
| `BoundedWorkers.NotStartedNeverServes` | integrations/robonix-map-service/robonix-map-service.py:917-919 | one whose thread failed to start only gives its permit back |
| `BoundedWorkers.RejectedIsMonotone` | integrations/robonix-map-service/robonix-map-service.py:909-910 | the refusal counter never goes down and is exact until it saturates |
| `PosixPath.SplitJoin` | integrations/robonix-map-service/robonix-map-service.py:762-768 | splitting a joined path gives back its components |
| `PosixPath.NormaliseKeepsMeaning` | website/sync_docs.py:277 | normalising a relative path first and resolving it afterwards leads to the same place from every directory |
| `PosixPath.RelativeLeadsToTarget` | website/sync_docs.py:233-235 | following a relative path from its start leads exactly to its target |
| `MapArchive.SafePathStaysBelow` | integrations/robonix-map-service/robonix-map-service.py:762-768 | a checked name is read the same way twice and can only lead below the staging directory |
| `MapArchive.SafeNameIff` | integrations/robonix-map-service/robonix-map-service.py:762-768 | a member name is accepted exactly when it does not begin with a slash and has no component ".." |
| `MapArchive.SafeNameResolves` | integrations/robonix-map-service/robonix-map-service.py:762-768 | resolving the raw accepted name in the staging directory leads to the path it is extracted to |
| `MapArchive.ArchiveMembers` | integrations/robonix-map-service/robonix-map-service.py:608-631 | succeeds exactly within the size and member limits on safe, supported members; returns the set of file names |
| `MapArchive.ExtractArchive` | integrations/robonix-map-service/robonix-map-service.py:633-665 | succeeds exactly on acceptable members within the limit of which no two clash; returns the tree they describe |
| `MapArchive.TreeIs` | integrations/robonix-map-service/robonix-map-service.py:640-661 | the extracted tree has a file or a directory exactly where some member asks for it |
| `MapArchive.FitsIffNoClash` | integrations/robonix-map-service/robonix-map-service.py:647-656 | creating a member works exactly when it clashes with no earlier one |
| `MapArchive.NamesAgree` | integrations/robonix-map-service/robonix-map-service.py:608-665 | the validated names are exactly the extracted files |
| `MapArchive.RequiredAgree` | integrations/robonix-map-service/robonix-map-service.py:485-487 | a required name is validated exactly when the required file is extracted |
| `MapArchive.PackMap` | integrations/robonix-map-service/robonix-map-service.py:585-606 | succeeds exactly for a free destination, only files and folders and a small enough result; lists the files in order, a second name of an inode as a link |
| `MapArchive.PackedConflictFree` | integrations/robonix-map-service/robonix-map-service.py:591-600 | no two members of a packed directory clash |
| `MapArchive.PackedCounts` | integrations/robonix-map-service/robonix-map-service.py:591-600 | without hard links a packed directory is supported, with its file count, byte count and path to bytes map |
| `MapArchive.HardLinkUnsupported` | integrations/robonix-map-service/robonix-map-service.py:622-623 | a second name of an inode makes the packed archive unacceptable |
| `MapArchive.ValidateBundle` | integrations/robonix-map-service/robonix-map-service.py:455-461 | the publication check succeeds exactly on a valid archive whose tree would hold the required files |
| `MapArchive.ImportBundle` | integrations/robonix-map-service/robonix-map-service.py:484-492 | the reading part of an import succeeds exactly on a publishable archive without clashes whose staged directory passes the database test |
| `MapArchive.BuildThenImport` | integrations/robonix-map-service/robonix-map-service.py:436-498 | importing what was packed gives back exactly the files, if and only if the limits hold and no inode has two names |
| `MapArchive.ConflictFreeIffSound` | integrations/robonix-map-service/robonix-map-service.py:640-656 | no two members clash exactly when the archive describes a tree: every file member has its own file and no path is a file and a directory |
| `MapArchive.PublishedNotImportableIff` | integrations/robonix-map-service/robonix-map-service.py:455-492 | a published bundle cannot be imported if and only if its tree loses a file, has a path that is a file and a directory, or fails the database test |
| `MapArchive.RepeatedFileNeverImported` | integrations/robonix-map-service/robonix-map-service.py:618-656 | repeating a file of any published bundle within the limits keeps it publishable and makes it unimportable |
| `MapArchive.DuplicatePublishedNeverImported` | integrations/robonix-map-service/robonix-map-service.py:455-461 | for every archive size within the limit there is a bundle with all required files that is published and never imported |
| `MapImport.ImportedMaps.RecordImport` | integrations/robonix-map-service/robonix-map-service.py:222-241 | records once, accepts a repetition, raises on another digest; rows never change |
| `MapImport.RecordedForever` | integrations/robonix-map-service/robonix-map-service.py:222-241 | a recorded digest never changes in any run |
| `MapImport.DirectoryForever` | integrations/robonix-map-service/robonix-map-service.py:470-496 | a local map directory is replaced by no import, build, save of another map or crash: only its own deletion or a save into it changes it |
| `MapImport.RecordedDirectoryForever` | integrations/robonix-map-service/robonix-map-service.py:470-496 | while imported directories are left alone, a recorded one is never replaced |
| `MapImport.RunKeepsInv` | integrations/robonix-map-service/robonix-map-service.py:463-498 | lock ownership, the renamed but unrecorded window, and a directory for every row |
| `MapImport.SuccessHasProvenance` | integrations/robonix-map-service/robonix-map-service.py:472-498 | success is reported only for a directory whose recorded provenance is the given artifact; the record never conflicts |
| `MapImport.SuccessIsRecorded` | integrations/robonix-map-service/robonix-map-service.py:472-498 | in every state a success leaves its digest on record, and records change only with a success |
| `MapImport.OneDecision` | integrations/robonix-map-service/robonix-map-service.py:471-487 | under the lock an existing target is refused or reused, never both, and a free one is extracted |
| `MapImport.RunKeepsLocked` | integrations/robonix-map-service/robonix-map-service.py:470-496 | in every run the map lock is held exactly by the import that is inside it, and never leaked |
| `MapImport.CrashKeepsFiles` | integrations/robonix-map-service/robonix-map-service.py:463-498 | a crash ends every import and build and changes no directory, record or artifact |
| `MapImport.WindowOrphans` | integrations/robonix-map-service/robonix-map-service.py:493-494 | a crash between rename and record, or a failing record transaction, leaves a directory without provenance |
| `MapImport.OrphanForever` | integrations/robonix-map-service/robonix-map-service.py:471-481 | such a directory stays so until it is deleted, and until then every import to it fails |
| `MapImport.DeletedOrphanCanBeImported` | integrations/robonix-map-service/robonix-map-service.py:471-494 | once it is deleted, the artifact can be imported with a faithful record |
| `MapImport.RecordedIsFaithful` | integrations/robonix-map-service/robonix-map-service.py:463-498 | a recorded digest implies that its directory exists with that artifact's content, while imported directories are left alone and builds of one artifact do not overlap |
| `MapImport.SuccessMeansContent` | integrations/robonix-map-service/robonix-map-service.py:472-498 | a reported success then means that the directory holds the given artifact |
| `MapImport.FaithfulStepIff` | integrations/robonix-map-service/robonix-map-service.py:463-498 | in every run without overlapping builds a step keeps all records faithful if and only if it neither deletes or saves over a recorded directory nor records a new import whose directory was touched since the import's own rename |
| `MapImport.TouchedWindowMisrecords` | integrations/robonix-map-service/robonix-map-service.py:493-494 | a run in which no recorded directory is ever touched, but one is deleted between its rename and its record |
| `MapImport.FaithfulIffArtifactUnchanged` | integrations/robonix-map-service/robonix-map-service.py:469-494 | under overlapping builds a record is faithful, from then on, exactly when the artifact file held the same bytes at the import's own hash and at its own extraction |
| `MapImport.OverlappingBuildsMisrecord` | integrations/robonix-map-service/robonix-map-service.py:585-606 | a run from no artifact at all, in which two builds both see no destination, that records the wrong digest |
| `MapImport.DeletedDirectoryMisreports` | integrations/robonix-map-service/robonix-map-service.py:471-494 | a run with a deleted directory that reports content which is not there |
| `FaultTimeline.FaultGate.CountRequest` | tools/e2-recovery/fault_runtime.py:231-233 | numbers the accepted requests |
| `FaultTimeline.FaultGate.Claim` | tools/e2-recovery/fault_runtime.py:247-250 | only the first claim succeeds |
| `FaultTimeline.RunKeepsInv` | tools/e2-recovery/fault_runtime.py:159-345 | owner, order and recorded details of the timeline, for every interleaving and every failing write |
| `FaultTimeline.TimelineIsOrdered` | tools/e2-recovery/fault_runtime.py:267-345 | the milestones form a beginning of the fixed order, in memory and persisted |
| `FaultTimeline.SingleInjection` | tools/e2-recovery/fault_runtime.py:247-265 | no milestone but the registration occurs twice: one trigger, one crash |
| `FaultTimeline.TriggerIsTheTargets` | tools/e2-recovery/fault_runtime.py:227-265 | every trigger carries the number and agent of the accepted request that its own thread counted; in agent mode it names the agent, in step mode it is the request after the configured steps |
| `FaultTimeline.StepPersists` | tools/e2-recovery/fault_runtime.py:159-163 | an emission appends one event, and the file then holds the whole timeline or, when the write fails, what it held |
| `FaultTimeline.RunKeepsFiled` | tools/e2-recovery/fault_runtime.py:159-345 | the injector goes on only while the file shows every milestone so far, except a registration that is emitted again |
| `FaultTimeline.ClaimDecides` | tools/e2-recovery/fault_runtime.py:247-250 | the first claim makes its thread the owner with its own request; later ones change nothing else |
| `FaultTimeline.EndsOnRecord` | tools/e2-recovery/fault_runtime.py:267-345 | the injector has ended exactly when it recorded a rebind, reported a failure or died |
| `FaultTimeline.FailureIsReported` | tools/e2-recovery/fault_runtime.py:267-345 | a failure is on the timeline exactly when the injector reported one |
| `FaultTimeline.SevenEventsIffRebind` | tools/e2-recovery/run_fault.py:71-83 | on every reachable persisted timeline the seven-event test is the presence of the rebind |
| `FaultTimeline.RebindWasAuthorised` | tools/e2-recovery/fault_runtime.py:299-424 | a rebind is to another execution than the original, whose recovery was authorised with 202 |
| `FaultTimeline.StrictIffRegisteredOnce` | tools/e2-recovery/fault_runtime.py:347-359 | each milestone occurs at most once, in order, if and only if the registration was emitted at most once |
| `FaultTimeline.LostRegistrationRepeats` | tools/e2-recovery/fault_runtime.py:349-358 | a run in which a failed write of the registration makes it occur twice |
| `FaultTimeline.VerdictIffRebind` | tools/e2-recovery/run_fault.py:30-94 | a node-loss injection is valid exactly when the rebind is persisted and the earlier snapshot fits; the infrastructure is fine exactly when no failure is on record, and the whole run succeeds exactly when the runner also reported success |
| `FaultTimeline.AgentVerdictNeedsItsTrigger` | tools/e2-recovery/run_fault.py:61-83 | no timeline at all is a valid node loss in agent mode unless its first trigger names the agent |
| `FaultTimeline.CleanVerdictIff` | tools/e2-recovery/run_fault.py:59-60 | for every target the clean verdict is valid exactly when no trigger is persisted; without a target none ever is |
| `FaultTimeline.CleanRunInjects` | tools/e2-recovery/run_fault.py:126-151 | a clean run with an agent named injects and is not valid |
| `HiddenExit.InjectedCrashIsHidden` | tools/e2-recovery/fault_runtime.py:37-42 | an injected crash is never visible to a poll before cleanup; an exit is hidden exactly while the child is marked and cleanup has not started |
| `HiddenExit.ExitIsVisible` | tools/e2-recovery/fault_runtime.py:37-42 | the first poll that starts after an exit sees it, unless marked and before cleanup |
| `HiddenExit.CleanupEndsHiding` | tools/e2-recovery/fault_runtime.py:37-58 | from the first cleanup on every poll answers with what it read |
| `HiddenExit.LooksAliveIsThePoll` | tools/e2-recovery/fault_runtime.py:37-42 | a child looks alive to the cleanup exactly when a poll answers nothing |
| `HiddenExit.GenuineExitIsHidden` | tools/e2-recovery/fault_runtime.py:270-276 | after a failed injection a child's own exit is reported as alive |
| `HiddenExit.Child.SendSignal` | tools/e2-recovery/fault_runtime.py:44-48 | starts cleanup and signals only a living child |
| `HiddenExit.Child.Kill` | tools/e2-recovery/fault_runtime.py:54-58 | starts cleanup and kills only a living child |
| `HiddenExit.SignalAll` | tools/e2-generic/run_task.py:281-283 | every living child gets SIGTERM, in reverse order, and no exit is hidden afterwards |
| `HiddenExit.WaitAll` | tools/e2-generic/run_task.py:284-292 | every child is waited for in reverse order until one survives SIGKILL |
| `HiddenExit.StopProcesses` | tools/e2-generic/run_task.py:279-292 | every child is reaped and its log closed if and only if none outlives SIGKILL; otherwise exactly those started after the last such child |
| `EventArchive.ControllerEventArchive` | tools/e2-generic/run_dag.py:54-70 | the paging loop; a returned archive has sequences 1..n |
| `EventArchive.CompleteIsContiguous` | tools/e2-generic/run_dag.py:54-70 | whatever the server answers, n is the reported end and the last page was empty |
| `EventArchive.ArchiveIsTheLog` | tools/e2-generic/run_dag.py:54-70 | over a growing log and any page sizes the archive is the log at the moment of the empty page |
| `EventArchive.ExportEvents` | tools/e2-recovery/export_persisted_events.py:23-29 | succeeds exactly on sequences 1..n and lists all rows |
| `EventArchive.FinishesIffBudget` | tools/e2-generic/run_dag.py:58-70 | the reader finishes exactly when one page of the budget is left for the empty answer |
| `EventArchive.PagedAgreesWithExport` | tools/e2-generic/run_dag.py:54-70 | on a frozen log the paged archive succeeds exactly when the export does and the budget leaves a page; both list the same events |
| `SiteLinks.BrokenLinks.Rewrite` | website/sync_docs.py:240-294 | rewrites one link; records exactly the links that lead nowhere and keeps them |
| `SiteLinks.ValidatePage` | website/sync_docs.py:498-511 | reports exactly the links whose target is missing, in order |
| `SiteLinks.RepoTargetKeepsMeaning` | website/sync_docs.py:270-277 | the normalised repository path names the same place as the link from its page |
| `SiteLinks.RewrittenLinkLeadsToPage` | website/sync_docs.py:216-237 | the written relative link leads to the mapped page, with the same anchor, if and only if it holds no '#' |
| `SiteLinks.MirroredLinkIsWritten` | website/sync_docs.py:216-290 | a link gets the page of its own path, else that of the index below it, as a relative path with its anchor |
| `SiteLinks.SkippedIff` | website/sync_docs.py:264-265 | the prefixes that leave a link untouched, as strings |
| `SiteLinks.LeavesIff` | website/sync_docs.py:278-279 | a normalised path leaves the repository exactly when it is the root or begins with two dots |
| `SiteLinks.AbsoluteKeepsMeaning` | website/sync_docs.py:281 | a decoded path that is absolute replaces its base, keeps its place when normalised, and keeps exactly two leading slashes |
| `SiteLinks.MirroredLinkIsAccepted` | website/sync_docs.py:240-290 | a link to a mirrored page becomes its relative path with the same anchor, and the validator accepts it unless that path holds a '#' |
| `SiteLinks.UnmirroredLinkGoesToGithub` | website/sync_docs.py:201-213 | every other rewritten link is the GitHub URL of its path, tree or blob, with the same anchor, and is accepted |
| `SiteLinks.SentOutsideIff` | website/sync_docs.py:277-290 | a link is rewritten to the GitHub URL of a path outside the repository if and only if neither path is mirrored, the raw one names nothing and the decoded one names a directory or a file outside |
| `SiteLinks.RawTargetInside` | website/sync_docs.py:270-276 | the raw path of a rewritten link is always inside the repository |
| `SiteLinks.EncodedParentLeadsOutside` | website/sync_docs.py:277-290 | an encoded ".." is sent to GitHub while a plain one is left alone |
| `SiteLinks.BrokenExactlyWhenNowhere` | website/sync_docs.py:281-294 | a link is recorded as broken if and only if neither its raw nor its decoded path is mirrored, a directory or a file |
| `SiteLinks.EncodedHashIsReported` | website/sync_docs.py:280-286 | for every page with a '#' in its name, an encoded link to it is rewritten and then rejected by the validator although the page is there |
| `SiteLinks.HashExample` | website/sync_docs.py:280-286 | "a#.md" and "a%23.md" are such names |
| `DeploymentProfile.Keyed` | tools/deployment/deployment_profile.py:129-138 | accepted exactly when in bounds, valid and without repeated identities; then nothing was overwritten |
| `DeploymentProfile.CohostedAgree` | tools/deployment/deployment_profile.py:205-211 | the one-pass check holds if and only if every two components of one process agree on host, domain and binary |
| `DeploymentProfile.Inspection.Pin` | tools/deployment/deployment_profile.py:443-452 | pins an input exactly while both bounds hold |
| `DeploymentProfile.Inspection.PinAll` | tools/deployment/deployment_profile.py:454-474 | all inputs are pinned if and only if each can be and they are at most 2048 with at most 4 GiB together |
| `DeploymentProfile.PrefixInBounds` | tools/deployment/deployment_profile.py:443-452 | both bounds hold for every prefix of the pins |
| `DeploymentProfile.InspectStores` | tools/deployment/deployment_profile.py:475-519 | succeeds if and only if every two observed stores have different inodes and no path inside that of another owner |
| `DeploymentProfile.SeparateIff` | tools/deployment/deployment_profile.py:497-508 | two observed stores are separate exactly when their inodes differ and, for different owners, neither path continues the other |

## Left out

- The Rust control, runtime, state and replication core, except for the page query that `EventArchive.Frozen` takes
  from `core/state/src/event_log.rs`.
- `tools/quality`, `scenarios`, the console's drawing, timers and replay, prompts and planner calls: fixed evidence,
  presentation or opaque services.
- The main loop of `tools/e2-generic/run_task.py`: it moves on without terminal evidence, so no overlap is not
  promised for it.
- `tools/e2-generic/run_prompt_ablation.py`, `tools/e2-recovery/run_fault_batch.py` and similar batch drivers: counting
  over fixed manifests.
- Malformed JSON shapes in `validate_plan` (a missing key or a wrong type raises there) and Unicode digits in its action
  pattern: a plan is a typed value and digits are '0' to '9'.
- Field validation of `submit` and of the deployment profile: outcomes of these checks are parameters.
- Real tar, gzip, TLS, HTTP and SQLite formats: archives are sequences of members, logs sequences of events.
- File modes, name length limits and an empty directory in the way of a rename.
- The text of a page around its links: matching links in Markdown, pinning of revisions, the two textual
  replacements after rewriting.
- Clocks: deadlines and timeouts are failures that may happen at any step.
- MissionSystem.BudgetHolds: the bound has a term for repeated commits of one Task, because nothing in the runner or the
  bridge limits them; without them it is exact.
- BoundedWorkers.PermitReturnedOnce: says nothing about a connection that never ends.
- FaultTimeline.VerdictIffRebind: the content of the snapshot taken before the crash is a parameter.
