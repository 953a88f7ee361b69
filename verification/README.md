# A verified model of the storage manager's execution core

linux-storage-manager plans and executes growth of partitions, physical volumes, logical
volumes and filesystems. Everything that can change storage is recorded ahead in a durable
operation journal, under a host-wide lock, and every mutation is compiled, permitted and
verified one step at a time. This project models that core and proves what it is for:
whatever fails or loses power, the records on disk tell the truth, at most one mutation is
open on a host, and commands run in the approved order against the approved identity.

`dafny verify dfyconfig.toml` checks everything.

## What is modelled

| modules | part of the system |
|---|---|
| `Operations`, `Journals`, `JournalValidator`, `JournalUpdates` | the journal, its transition function and its validator |
| `Decimals`, `EntryNames` | names of directory entries: primary, history and staging |
| `Disks`, `StoreStates`, `CrashSafety`, `RecordCreation`, `HistoryRuns`, `JournalStore` | the crash-safe store: durable names, unsynced changes, stage / exchange / archive, the strict reader |
| `AttemptIds`, `LockedSessions`, `SessionRuns`, `Reconciliation`, `HostRuns` | attempt numbering, the locked session and all its runs, abort of an abandoned operation, all runs of a host |
| `SampleRecords`, `Counterexamples` | records of one operation, and inputs on which properties of journal and store fail |
| `IsolatedWriter` | the forked writer: short-write loop and parent/child handshake |
| `DependencyGraph`, `ExecutionIntent`, `NativeManifests` | graph validation, freezing a plan, native manifest validation |
| `TargetIdentity`, `PartitionNumbers`, `DisposableArgv`, `ExecutionStarts`, `StuckPlans`, `DisposablePermits`, `BoundaryChecks`, `BoundarySessions`, `PlanTargets`, `PlanRuns`, `SamplePlans` | compiling commands, binding an execution, plans that cannot be continued, permits, verification of each step, and whole executions |
| `BackupManifests`, `BackupReceipts` | required metadata backups, their capture and their receipts |
| `DeviceGraphs` | device-mapper aliases and the block device tree |

How the pieces are represented:

- A digest is either literal text or SHA-256 of a preimage, and SHA-256 is an injective
  constructor. Serialized forms of different kinds are different preimages.
- A directory is a map from names to inodes that is durable, a list of namespace changes not
  yet synced, and a map from inodes to files with a flushed flag. A power loss keeps any
  subset of the unsynced changes and tears any file that was not flushed.
- `DurableStore` performs one system call per method and records every disk it passes
  through. A store is either reliable or `faulty`; a faulty one may fail at every call, and
  also stands for every "changed during inspection" answer. The methods are proved for both.
- Sizes, sectors and counters are bounded by the width of the machine integer; a checked
  operation that the program performs is an explicit comparison here.
- The digest of an identity is the image of the rest of it under any function
  (`TargetIdentity.Sealed`), so the fields of an identity that the pipeline does not read may
  be part of it.
- The two processes of the writer are interleaved one system call at a time; every call of
  either may fail, and the staging name may be redirected by somebody else at any moment.

## Properties that are false as stated, and when they hold

- **Size limit.** The writer checks the encoded length against 1 MiB before it appends the
  final newline (`crates/executor/src/journal_store.rs:519-523` and `:634-638`); the reader
  rejects a file over 1 MiB. A record of exactly 1 MiB is staged and gets the primary name;
  reading it back fails, so an update stops right after the exchange and a creation right
  after the record got its name. What is on disk then is refused for good, whatever a power
  loss does to it, and no session ever begins again (`HostRuns.StoppedCallBlocks`).
  `CrashSafety.FinishedQuiescent` and `RecordCreation.CreatedQuiescent` give the exact
  condition, `Counterexamples.FullRecordJams` and `Counterexamples.FullNewRecordJams` an
  input: the reason of an interruption, and a target, of just the right length.
- **Changed bindings.** An update does not compare approval or execution with the record it
  replaces, but the strict reader compares them with the archived record.
  `CrashSafety.FinishedQuiescent`: the directory is readable again if and only if the update
  keeps the bindings that were present. Every transition of a session does
  (`JournalUpdates.ApplyRetains`); `Counterexamples.ChangedApprovalJams` is an update that
  does not. `CrashSafety.CrashAtomicity` covers both kinds of update.
- **Validity under transitions.** Event codes are free text for the validator. A transition
  applied to an accepted record gives an accepted one if and only if its arguments are
  acceptable (`JournalUpdates.ApplyKeepsValid`); for a verified continuation that means no
  earlier event claims the completion code, and `Counterexamples.ContinuationFails` is an
  accepted record where one does. Records made by the program itself never do
  (`JournalUpdates.HonestContinuation`).
- **Closure under truncation.** The rebuilt Approved state is itself an acceptable record if
  and only if none of the first four events claims a continuation
  (`JournalValidator.ApprovedStateAcceptable`); `Counterexamples.TruncationFails` is a record
  where one does.
- **Continuing an accepted plan.** Native validation accepts dependencies through other
  steps; the continuation compiler wants a direct dependency on the previous mutation.
  `DisposableArgv.ContinuationExact` gives the exact condition. `StuckPlans.DetourIsStuck`
  gives a family of accepted manifests that can never be continued,
  `StuckPlans.DetourCompiles` says exactly which of them compile for some identity, and
  `StuckPlans.DetourHappens` follows one plan through all of it: frozen, accepted, compiled,
  approved, started, stuck. `PlanRuns.PlanCompletes` says exactly which plans get through, and
  `SamplePlans.SomePlanCompletes` that some do.
- **Partition names.** A number does not determine the path: leading zeros and an optional
  separator are accepted (`PartitionNumbers.NumberNotInjective`).
- **Mapper aliases.** Two logical volumes share an alias if and only if hyphens can be moved
  across the separator (`DeviceGraphs.SharedAlias`).
- `LockedSession.Revalidate` writes without consulting the inventory, so unlike the other
  transitions it can also write into a directory that the strict reader refuses. The record
  itself still stands there as after any other write (`LockedSessions.RevalidationStanding`).

## Model

| member | source | states |
|---|---|---|
| JournalUpdates.ApplyAppends | crates/planner/src/execution_guard.rs:534-859 | every transition of a non-terminal journal appends exactly one numbered event that links the old phase to the new one, and changes neither ID, plan, target nor baseline |
| JournalUpdates.ApplyAllowed | crates/planner/src/execution_guard.rs:534-859 | the step taken is one the store's phase graph allows, and the mutation flag stays equal to "phase after the start of execution" and is never cleared |
| JournalUpdates.ApplyShape | crates/planner/src/execution_guard.rs:571-650 | only approval sets the approval, only start sets the execution, and the two phases are entered in no other way |
| JournalUpdates.ApplyRetains | crates/executor/src/journal_store.rs:116-125 | what a transition produces matches the record it replaces as history: same operation, bindings kept, events a strict prefix |
| JournalUpdates.ApplyKeepsValid | crates/executor/src/journal_store.rs:1007-1397 | a transition of an accepted record gives an accepted record if and only if its arguments are acceptable |
| JournalUpdates.HonestContinuation | crates/planner/src/execution_guard.rs:657-711 | records whose codes match their events keep that property, and every continuation of them stays acceptable |
| JournalUpdates.BindingFacts | crates/executor/src/journal_store.rs:1080-1263 | in an accepted record approval and execution are present exactly when the events at index 3 and 4 say so |
| JournalValidator.ValidateJournal | crates/executor/src/journal_store.rs:1007-1078 | the loop over events and the binding checks report no defect exactly for valid records, and otherwise the first one in program order |
| JournalValidator.ChainGrammar | crates/executor/src/journal_store.rs:1025-1052 | a numbered, linked chain is accepted if and only if its phases are in the grammar Planned, HostLockHeld, IdentityRevalidated, PreconditionsVerified, Approved, Executing, then alternating Verifying and Executing, with the terminal phases on their own side of the start |
| JournalValidator.EventChainGrammar | crates/executor/src/journal_store.rs:1399-1424 | approval and start happen at most once, at index 3 and 4; Aborted only before the start, RecoveryRequired and Completed only after it; the mutation flag is set exactly when the chain contains the start |
| JournalValidator.TransitionIndices | crates/executor/src/journal_store.rs:1080-1092 | the searches for the approval and start events find index 3 and index 4 or nothing |
| JournalValidator.StartedIffFlag | crates/executor/src/journal_store.rs:1060-1071 | the flag check is equivalent to the presence of the start event |
| JournalValidator.NestedReconstruction | crates/executor/src/journal_store.rs:1205-1260 | the Approved state rebuilt during execution validation itself passes approval validation, because both truncations rebuild the same earlier state |
| JournalValidator.ApprovedStateAcceptable | crates/executor/src/journal_store.rs:1205-1260 | exactly when that rebuilt state is an acceptable record in full |
| JournalValidator.SameExecutionSameApprovedState | crates/executor/src/journal_store.rs:1205-1260 | two accepted records with the same execution binding agree on ID, plan, target, baseline, approval and first four events |
| JournalValidator.TerminalVerification | crates/executor/src/journal_store.rs:1322-1375 | an accepted completed record with a continuation carries a final binding whose final step is the last durable step and whose completed step is the one before |
| EntryNames.PrintOfParse | crates/executor/src/journal_store.rs:81-107 | every name of any kind is the print of its parse, so accepted numbers are canonical |
| EntryNames.ParseOfPrint | crates/executor/src/journal_store.rs:732-737 | parsing recovers exactly what was formatted, for primary, history and staging names |
| EntryNames.HistoryIsPrinted | crates/executor/src/journal_store.rs:94-107 | an accepted history name has a valid ID, digest and 64-bit number and is their canonical text |
| EntryNames.StagingRoundTrip | crates/executor/src/journal_store.rs:887-893 | a generated staging name decodes to its journal ID, process ID and counter |
| EntryNames.GeneratedNamesDistinct | crates/executor/src/journal_store.rs:882-893 | primary, history and staging names of different kinds or contents are different texts |
| StoreStates.ArchiveNameFresh | crates/executor/src/journal_store.rs:729-738 | from a quiescent directory the archive name of the replaced record is free, so the no-replace rename cannot collide |
| StoreStates.UpdateLive | crates/executor/src/journal_store.rs:593-774 | the names a running program sees after each step of an update |
| CrashSafety.CrashAtomicity | crates/executor/src/journal_store.rs:593-774 | power loss at any step of any update leaves the old answer, the new answer or an error; the old record always survives, the new one from the end of staging on; the old answer is possible only before staging is durable, the new one only from the archive rename on and only if the update kept bindings and left room for its newline |
| CrashSafety.UpdateViews | crates/executor/src/journal_store.rs:593-774 | which names a power loss can leave after each step |
| CrashSafety.AtMostOnePending | crates/executor/src/journal_store.rs:593-774 | never more than one namespace change waits for a directory sync |
| CrashSafety.UpdateKeepsFiles | crates/executor/src/journal_store.rs:512-774 | no step of an update or creation alters or removes a file that was there |
| CrashSafety.FinishedQuiescent | crates/executor/src/journal_store.rs:593-774 | the directory that an update leaves when no call fails, as the program sees it and as any power loss could leave it, is readable if and only if the update kept bindings and left room for the newline, and then exactly the one record changed |
| CrashSafety.FullRecordBlocks | crates/executor/src/journal_store.rs:665-701 | an update stopped right after the exchange leaves a staging name in everything that can be found, so the reader refuses it |
| CrashSafety.UpdateLosesNothing | crates/executor/src/journal_store.rs:593-774 | power loss at any step of an update loses no record, current or archived |
| RecordCreation.PublishedQuiescent | crates/executor/src/journal_store.rs:515-574 | a new record leaves the directory quiescent if and only if it leaves room for its newline, and then exactly that record was added |
| RecordCreation.CreateViews | crates/executor/src/journal_store.rs:515-574 | which names a power loss can leave after each step of a creation |
| RecordCreation.CreationAtomicity | crates/executor/src/journal_store.rs:515-574 | power loss at any step of a creation leaves the old inventory, the inventory with exactly the one record added, or an error; the old answer is possible only before staging is durable, the new one only once the record has its name and only if it left room for its newline |
| RecordCreation.CreationLosesNothing | crates/executor/src/journal_store.rs:515-574 | and it loses no earlier record, current or archived |
| RecordCreation.CreatedQuiescent | crates/executor/src/journal_store.rs:515-574 | the directory that a creation leaves when no call fails is readable, with exactly the record added, if and only if the record left room for its newline |
| HistoryRuns.HistoryComplete | crates/executor/src/journal_store.rs:515-774 | after any run of creations and updates the archive of every ID is exactly all its earlier states, each event list a strict prefix of the next |
| HistoryRuns.PerformRecords | crates/executor/src/journal_store.rs:729-774 | one successful operation appends one state to one log and disturbs no other |
| Counterexamples.FullRecordJams | crates/executor/src/journal_store.rs:634-701 | under every encoding that spends one byte on a letter, some reason makes the record of an interruption exactly 1 MiB long; its update passes every check, a store on which no call fails stops after the exchange, and whatever is found then is refused |
| Counterexamples.FullNewRecordJams | crates/executor/src/journal_store.rs:515-574 | the same for a new record with a long target in an empty directory, which stops after the record got its name |
| Counterexamples.ChangedApprovalJams | crates/executor/src/journal_store.rs:600-774 | an update that changes the approval passes every check and runs to its end, and whatever is found then is refused |
| Counterexamples.TruncationFails | crates/executor/src/journal_store.rs:1205-1260 | an accepted started record whose rebuilt Approved state is not acceptable |
| Counterexamples.ContinuationFails | crates/executor/src/journal_store.rs:1264-1321 | an accepted verifying record with a verified continuation that applies and gives a record that is not accepted |
| JournalStore.DurableStore.All | crates/executor/src/journal_store.rs:349-426 | the strict reader returns the inventory of a quiescent directory and an error for any other |
| JournalStore.DurableStore.ReadEntries | crates/executor/src/journal_store.rs:353-388 | the first pass reads every entry: success means each is readable, and collects the current records and the archived ones |
| JournalStore.MatchArchive | crates/executor/src/journal_store.rs:409-423 | the second pass accepts exactly when every archived record matches the current one |
| JournalStore.DurableStore.LoadPinned | crates/executor/src/journal_store.rs:934-1005 | a record is returned exactly when a single-link file within the limit holds a valid record with the expected ID |
| JournalStore.DurableStore.PersistNew | crates/executor/src/journal_store.rs:515-574 | whatever happens, the disk is the old one advanced by some creation steps; on a reliable store success is equivalent to a valid, fitting record and a free name, and the step at which any other call stops is determined |
| JournalStore.DurableStore.PersistIfMatches | crates/executor/src/journal_store.rs:593-774 | whatever happens, the disk is the old one advanced by some update steps, and every disk on the way is named; on a reliable store success is equivalent to the guards, a free archive name and room for the newline, and the step at which any other call stops is determined |
| JournalStore.DurableStore.Stage | crates/executor/src/journal_fd.rs:512-764 | staging creates, writes, flushes and syncs in this order and stops at the first failure |
| JournalStore.DurableStore.ExchangeStaged | crates/executor/src/journal_store.rs:665-728 | exchange, check of both names and sync, with the disk after each outcome |
| JournalStore.DurableStore.ArchiveDisplaced | crates/executor/src/journal_store.rs:729-774 | archive rename, sync and check of both names, with the disk after each outcome |
| JournalStore.LoadExchanged | crates/executor/src/journal_store.rs:665-701 | right after the exchange the staging name holds the displaced record and the primary name the new one |
| AttemptIds.NextAttemptId | crates/executor/src/locked_session.rs:424-474 | an ID is returned if and only if the records of the operation are exactly attempts 0 to k-1, all safely aborted, attempt k is unused and k is below 1024; it is then the ID of attempt k |
| AttemptIds.CandidatesDistinct | crates/executor/src/locked_session.rs:424-474 | different attempts have different IDs |
| AttemptIds.GapFreeUnique | crates/executor/src/locked_session.rs:424-474 | at most one attempt number is free in this sense |
| LockedSessions.LockedSession.RequireCurrent | crates/executor/src/locked_session.rs:241-268 | success means the durable record equals the one in memory and no other record blocks the plan; without a store it never succeeds |
| LockedSessions.LockedSession.Persist | crates/executor/src/locked_session.rs:270-398 | the journal advances in memory only after it is durable; once memory and disk differ, or a staging name remains, nothing is ever written again; on a reliable store success is equivalent to a record in sync, no other record in the way, a transition that applies and room for the new record, and only a record without room for its newline stops inside the write |
| LockedSessions.LockedSession.Revalidate | crates/executor/src/locked_session.rs:118-167 | tried at most once; success means the identity matched and the journal stands at IdentityRevalidated, durably unless the directory was already blocked; on a reliable store exactly when it succeeds, with and without a store |
| LockedSessions.LockedSession.Begin | crates/executor/src/locked_session.rs:77-81 | a session without a store starts at HostLockHeld, and its invariant keeps it from ever passing IdentityRevalidated |
| LockedSessions.BeginDurable | crates/executor/src/locked_session.rs:169-239 | nothing is written unless the inventory is clear and gap-free; success adds exactly the first record under the next attempt ID; on a reliable store success is equivalent to a clear, gap-free inventory with an attempt left and room for the records |
| LockedSessions.StandingAlong | crates/executor/src/locked_session.rs:270-398 | at every step of a session's write the durable record is the one in memory up to the fourth step and exactly one transition ahead from the fifth on, in a directory that is blocked until the archive rename and then holds exactly the one changed record |
| LockedSessions.PrimaryAlong | crates/executor/src/journal_store.rs:593-774 | the same for any update in any directory, readable or not: the primary name holds the old record before the exchange and the new one after it, and the reader finds it, except a new record whose newline exceeds the limit |
| LockedSessions.RevalidationStanding | crates/executor/src/locked_session.rs:118-167 | the unguarded write of revalidation keeps the same relation of memory and disk at every step; a blocked directory stays blocked, and into one that is not blocked only a record in sync writes |
| LockedSessions.AheadIsNotExpected | crates/executor/src/locked_session.rs:241-268 | a durable record one transition ahead is never mistaken for the one in memory |
| SessionRuns.StandsAlways | crates/executor/src/locked_session.rs:118-398 | after every sequence of calls on a session, whatever their outcomes, the durable record is the one in memory or one transition ahead |
| SessionRuns.StuckSession | crates/executor/src/locked_session.rs:241-398 | once the record is ahead or the directory blocked, no later persist of the session succeeds or writes anything |
| SessionRuns.FailedWriteIsLast | crates/executor/src/locked_session.rs:270-398 | so every persist after one that wrote something and reported an error fails and writes nothing |
| Reconciliation.ReconcilePrewrite | crates/executor/src/reconciliation.rs:43-82 | an abandoned record is aborted only if it is unchanged since it was shown, confirmed, and no mutation can have started; otherwise nothing is written; on a reliable store success is equivalent to these, a record that is not terminal and room for the new one |
| HostRuns.InvariantStep | crates/executor/src/locked_session.rs:169-398 | every step of begin, persist, revalidate, abort, process death and power loss keeps the host invariant |
| HostRuns.HostWideSafety | crates/executor/src/locked_session.rs:169-268 | in every run, whatever a power loss would leave at any moment: at most one open mutation on the host, at most one started mutation per plan |
| HostRuns.HungStep | crates/executor/src/locked_session.rs:169-268 | while an open mutation nobody can continue is on disk, every step keeps it there and no session begins or writes a transition |
| HostRuns.HungForever | crates/executor/src/locked_session.rs:169-268 | in every run, from such a moment on every begin is refused and changes nothing |
| HostRuns.AgreeStep | crates/executor/src/locked_session.rs:169-398 | every step keeps the agreement of disk and program: whatever a power loss would leave is refused by the reader or shows every open mutation the running program sees |
| HostRuns.HopelessHangs | crates/executor/src/locked_session.rs:169-268 | so an open mutation that the program sees and nobody can continue is one, whatever is still unsynced |
| HostRuns.OpenMutationBlocks | crates/executor/src/locked_session.rs:169-268 | in every run: once the program sees an open mutation that nobody can continue, every later begin is refused and changes nothing |
| HostRuns.RecoveryRequiredHangs | crates/executor/src/locked_session.rs:387-398 | in every run: once a record is seen as RecoveryRequired, however its write was answered, every later begin is refused |
| HostRuns.AbandonedHangs | crates/executor/src/locked_session.rs:169-239 | in every run: once a record is seen in Executing or Verifying without a session, even with its last rename unsynced, every later begin is refused |
| HostRuns.StoppedCallBlocks | crates/executor/src/journal_store.rs:665-728 | in every run: after a call that stopped between staging and archive rename, or that created a record without room for its newline, every later begin is refused and changes nothing |
| IsolatedWriter.OutputFile.WriteAll | crates/executor/src/journal_fd.rs:250-266 | without an error every byte is written in order despite short writes and interruptions; with one, a strict prefix |
| IsolatedWriter.InvariantAlways | crates/executor/src/journal_fd.rs:163-296 | the handshake invariant holds after every interleaving of parent and child |
| IsolatedWriter.SuccessIsWhole | crates/executor/src/journal_fd.rs:707-763 | the parent returns success only if the child wrote every byte, the flush succeeded and the name still leads to the created file |
| IsolatedWriter.NoDeadlock | crates/executor/src/journal_fd.rs:657-704 | no interleaving leaves the parent waiting on a child that cannot move, even when send and shutdown both fail |
| IsolatedWriter.ChildExits | crates/executor/src/journal_fd.rs:163-296 | while the parent waits, an uninterrupted child is gone after a bounded number of steps |
| DependencyGraph.ValidateDependencyGraph | crates/executor/src/execution_intent.rs:255-304 | success if and only if IDs are nonzero and distinct, every dependency is another step and the graph has a topological rank; a reported cycle is a real one |
| DependencyGraph.Search.Visit | crates/executor/src/execution_intent.rs:280-298 | the recursion finishes the node after its dependencies or exhibits a cycle, and terminates by the number of unmarked nodes |
| DependencyGraph.IndexById | crates/executor/src/execution_intent.rs:255-268 | the index is built exactly for distinct nonzero IDs |
| DependencyGraph.CheckDependencies | crates/executor/src/execution_intent.rs:269-279 | accepts exactly when every dependency is another known step |
| DependencyGraph.CycleHasNoRank | crates/executor/src/execution_intent.rs:280-304 | a cycle excludes every topological rank |
| DependencyGraph.OrderIsRank | crates/executor/src/execution_intent.rs:280-304 | the finishing order of the search is a topological rank |
| ExecutionIntent.Freeze | crates/executor/src/execution_intent.rs:623-645 | a plan freezes if and only if its graph is sound and every step fits the frozen identity; the steps keep their order and every mutation step gets one barrier |
| NativeManifests.FrozenRoles | crates/executor/src/execution_intent.rs:491-576 | freezing keeps every step with its dependencies, operation and reversibility, and marks exactly the layered operations as mutations |
| NativeManifests.FrozenManifestIsNative | crates/executor/src/native_operation.rs:450-523 | a frozen manifest passes native validation if and only if lower layers come before higher ones |
| NativeManifests.ValidateManifest | crates/executor/src/native_operation.rs:450-523 | accepts exactly the manifests with a sound graph, ordered layers, matching roles and one fail-closed barrier per mutation |
| NativeManifests.CheckLayers | crates/executor/src/native_operation.rs:342-378 | the nested loops accept exactly when every higher-layer step depends, directly or not, on every lower-layer one |
| NativeManifests.Follow | crates/executor/src/native_operation.rs:350-358 | the unmarked recursion decides reachability and terminates on an acyclic graph |
| NativeManifests.MutationIdsDistinct | crates/executor/src/execution_intent.rs:634-643 | the IDs that get barriers are distinct and are those of the mutation steps |
| PartitionNumbers.NumberOfPath | crates/executor/src/disposable_argv.rs:167-179 | the number of every kernel partition name is recovered |
| PartitionNumbers.DiskOfPartition | crates/executor/src/disposable_argv.rs:167-179 | two disks that both explain a partition path agree on the number and differ at most by the separator |
| PartitionNumbers.NumberNotInjective | crates/executor/src/disposable_argv.rs:167-179 | different paths with the same number exist |
| DisposableArgv.PartitionFits | crates/executor/src/disposable_argv.rs:181-258 | an accepted growth keeps the start, strictly grows, ends within the disk, and its size in bytes fits a machine integer |
| DisposableArgv.PvCommand | crates/executor/src/disposable_argv.rs:260-306 | the command names the unique volume and its new size plus the space before the first extent |
| DisposableArgv.LvCommand | crates/executor/src/disposable_argv.rs:308-351 | the command names the unique volume, which strictly grows, and the approved number of extents |
| DisposableArgv.FilesystemCommand | crates/executor/src/disposable_argv.rs:353-417 | ext4 is grown by the resolved device, xfs by its only mount; an unmounted growth needs a target without mounts |
| DisposableArgv.FrozenStepCompiles | crates/executor/src/disposable_argv.rs:181-417 | exactly which steps accepted at freezing compile against the same identity |
| DisposableArgv.CompileGrowth | crates/executor/src/disposable_argv.rs:425-529 | a plan compiles if and only if every mutation step does and the layers form a supported profile; its commands are those of the mutation steps in order |
| DisposableArgv.CommandsInOrder | crates/executor/src/disposable_argv.rs:425-529 | command IDs are the manifest's mutation IDs, in order |
| DisposableArgv.SupportedSuffixes | crates/executor/src/disposable_argv.rs:501-521 | the supported profiles are the suffixes of partition, physical volume, logical volume, filesystem of length at least two |
| DisposableArgv.PlanProfile | crates/executor/src/disposable_argv.rs:425-529 | the commands of a plan run the programs of such a suffix, layer by layer |
| DisposableArgv.ContinuationExact | crates/executor/src/disposable_argv.rs:536-614 | a continuation compiles if and only if its step depends directly on the mutation before it and its own operation compiles |
| ExecutionStarts.StartAccepted | crates/planner/src/execution_guard.rs:375-431 | a binding that could be built always starts the execution, and the started record is accepted |
| ExecutionStarts.DurableList | crates/executor/src/disposable_start.rs:19-39 | the durable step list is the mutation list of the compiled manifest, and any manifest the binding matches by digest is that manifest |
| StuckPlans.DetourIsStuck | crates/executor/src/disposable_argv.rs:554-560 | manifests that native validation accepts and whose continuation is refused for every identity |
| StuckPlans.DetourCompiles | crates/executor/src/disposable_argv.rs:425-529 | however identities are fingerprinted, such a manifest compiles for one of them if and only if its volume grows by something and its filesystem is a known one with a safe mountpoint |
| StuckPlans.DetourStarts | crates/planner/src/execution_guard.rs:375-431 | whenever it compiles for an identity, its plan starts on every journal approved for that identity, and the started record is accepted |
| StuckPlans.DetourHappens | crates/executor/src/execution_intent.rs:623-645 | one plan goes through all of it: it freezes to the manifest against an identity with its own digest, is accepted, compiles, and starts on a journal approved for that identity, and can never be continued |
| DisposablePermits.LoopsDisjoint | crates/executor/src/disposable_permit.rs:78-87 | no path belongs to two loop devices |
| DisposablePermits.OneOwner | crates/executor/src/disposable_permit.rs:89-116 | a target is owned by at most one loop device |
| DisposablePermits.NoForeignLoop | crates/executor/src/disposable_permit.rs:97-101 | no device of another loop device is in an owned chain |
| DisposablePermits.FirstPermit | crates/executor/src/disposable_permit.rs:122-176 | the first permit carries command 0 |
| DisposablePermits.NextPermit | crates/executor/src/disposable_permit.rs:184-239 | a continuation permit carries the step right after the completed one in the durable list and the manifest, which declares a dependency on it |
| DisposablePermits.PermitsInOrder | crates/executor/src/disposable_permit.rs:184-239 | every run of permits carries the mutation steps in order, skipping and repeating none |
| DisposablePermits.PermitsOfPlan | crates/executor/src/disposable_permit.rs:122-239 | from compiled plan over durable binding to the last permit: the permits are the manifest's mutation steps in order |
| BoundaryChecks.BoundaryIsOrdered | crates/executor/src/disposable_verify.rs:120-158 | an accepted boundary is a pair of adjacent durable steps on a supported route |
| BoundaryChecks.BoundaryExact | crates/executor/src/disposable_verify.rs:120-275 | the check accepts a position if and only if a step follows, the route is supported and the effect is there; the answer is the next step |
| BoundaryChecks.PartitionAgreement | crates/executor/src/disposable_verify.rs:161-208 | a compiled growth applied exactly is accepted if and only if the device node is listed once; the checked product cannot overflow |
| BoundaryChecks.PvAgreement | crates/executor/src/disposable_verify.rs:209-227 | a compiled physical volume resize applied exactly is always accepted |
| BoundaryChecks.LvAgreement | crates/executor/src/disposable_verify.rs:228-270 | a compiled logical volume growth applied exactly is accepted if and only if a filesystem is known and an offline growth has no mounts |
| BoundaryChecks.BoundaryAgreement | crates/executor/src/disposable_verify.rs:120-275 | the compiler and the boundary check agree: a compiled growth applied exactly is accepted at its boundary if and only if another step follows, the route is supported and the target lets the effect be seen |
| BoundaryChecks.TerminalSizeChain | crates/executor/src/disposable_verify.rs:277-400 | after a logical volume growth, accepted completion means 0 < old size < new size <= backing size = expected volume size, on the same device, UUID and type |
| BoundaryChecks.TerminalSameMount | crates/executor/src/disposable_verify.rs:343-367 | a mounted growth saw the same single mount from the same source before and after; an unmounted one saw none |
| BoundarySessions.VerifyAndContinue | crates/executor/src/disposable_verify.rs:474-525 | the journal advances only past a verified step, and the durable record then holds the returned boundary; a failed verification writes nothing; on a reliable store a verified step is recorded exactly when the session can write |
| BoundarySessions.VerifyAndComplete | crates/executor/src/disposable_verify.rs:406-470 | completion is recorded only when every check passed; a failed check writes nothing; on a reliable store a passed one is recorded exactly when the session can write |
| BoundarySessions.CompletionRecorded | crates/executor/src/disposable_verify.rs:414-463 | once the checks have passed, completion gives an accepted Completed record whose boundary names the last two durable steps, the identity that authorized the growth and the identity that shows it |
| BoundarySessions.BoundaryBinds | crates/executor/src/disposable_permit.rs:184-239 | after a verified boundary only the loop device or the command itself can still refuse the next permit |
| BoundarySessions.ContinuationApplies | crates/executor/src/disposable_verify.rs:503-517 | a verified continuation is applied by the journal if and only if the identity digest is well-formed |
| BoundarySessions.CompletionApplies | crates/executor/src/disposable_verify.rs:453-463 | the same for completion |
| PlanRuns.PlanCompletes | crates/executor/src/disposable_verify.rs:406-525 | from an approved journal the execution of a compiled plan starts; with every growth applied exactly, the run over first permit, verified boundaries, continuation permits and completion gets through if and only if plan and target suit each other (`PlanTargets.Suits`: steps directly chained, supported route, owned by the loop device, a grown partition's device listed once, filesystem of known size below the volume's, with UUID and mount source, and really grown), and then ends in an accepted, completed record |
| PlanRuns.AdvanceWhen | crates/executor/src/disposable_verify.rs:474-525 | a growth whose conditions hold is verified, recorded, and followed by a permit for the next step |
| PlanRuns.AdvanceOnlyWhen | crates/executor/src/disposable_verify.rs:474-525 | and only such a growth; everything the next step needs then holds |
| PlanRuns.FinishExact | crates/executor/src/disposable_verify.rs:406-470 | completion is recorded if and only if the filesystem can be recognized, had room and really grew |
| SamplePlans.SomePlanCompletes | crates/executor/src/disposable_verify.rs:406-525 | such a plan and target exist, however identities are fingerprinted: an accepted manifest, a target it compiles for, a journal approved for that target, and a run that ends in an accepted, completed record |
| PlanTargets.StillCompiles | crates/executor/src/disposable_argv.rs:536-614 | a step that compiled still compiles after every growth below it |
| PlanTargets.OwnershipKept | crates/executor/src/disposable_permit.rs:89-116 | no growth changes which loop device owns the target |
| PlanTargets.PermitAt | crates/executor/src/disposable_permit.rs:184-239 | after a verified boundary the next permit is bound if and only if the loop device owns the target, the step depends directly on the one before, and the filesystem, if it is next, has room |
| BackupManifests.BuildManifest | crates/executor/src/backup_manifest.rs:155-227 | a manifest is built if and only if the handoff is usable and every first backup step of a disk or volume group resolves uniquely |
| BackupManifests.BuildRequirements | crates/executor/src/backup_manifest.rs:177-203 | the loop selects the first step of every key and numbers the requirements in order |
| BackupManifests.FirstOfKeyComplete | crates/executor/src/backup_manifest.rs:175-193 | every disk and volume group a plan wants backed up is selected, and only once |
| BackupManifests.BuiltIsNumbered | crates/executor/src/backup_manifest.rs:195-203 | ordinals are exactly 1 to n, and artifact paths are distinct |
| BackupManifests.PathsDistinct | crates/executor/src/backup_manifest.rs:380-382 | a path determines its ordinal and suffix |
| BackupManifests.RequirementFacts | crates/executor/src/backup_capture.rs:585-617 | every built requirement is one that the capture accepts |
| BackupManifests.RecoveryUndoesCapture | crates/executor/src/backup_manifest.rs:229-367 | the recovery command reads exactly the file the capture wrote, for the same object, which is the unique one of the frozen identity; only the recovery changes storage metadata |
| BackupReceipts.ArtifactDirectory.Capture | crates/executor/src/backup_capture.rs:282-368 | existing files are never touched; the receipt describes every artifact as it is; success is equivalent to a bound session, a secure directory that can be synced, and requirements that can all be captured |
| BackupReceipts.ArtifactDirectory.CaptureAll | crates/executor/src/backup_capture.rs:307-340 | success is equivalent to valid requirements with different free file names and tools that write acceptable files; then exactly the artifacts of the manifest were added |
| BackupReceipts.ArtifactDirectory.Revalidate | crates/executor/src/backup_capture.rs:370-537 | there is no blocker if and only if the receipt matches manifest and files |
| BackupReceipts.MatchIsBijection | crates/executor/src/backup_capture.rs:415-522 | a matching receipt has exactly one entry per requirement and none extra, by counting |
| BackupReceipts.MatchPinsFiles | crates/executor/src/backup_capture.rs:496-521 | two directories that match one receipt agree on device, inode and contents of every artifact |
| BackupReceipts.FreshReceiptMatches | crates/executor/src/backup_capture.rs:370-537 | right after a capture, with the captured files unchanged, the receipt matches |
| BackupReceipts.OneManifest | crates/executor/src/backup_capture.rs:383-390 | a receipt matches at most one manifest |
| BackupReceipts.NameOfArtifact | crates/executor/src/backup_capture.rs:310-318 | the artifact of a requirement is looked for under the name made for it |
| BackupReceipts.NameStaysInside | crates/executor/src/backup_capture.rs:310-318 | the file name of any path is a plain component, so joining it never leaves the artifact directory |
| BackupReceipts.BuiltCapturable | crates/executor/src/backup_capture.rs:307-318 | the requirements of a built manifest can be captured if and only if their tools work and their names are free |
| DeviceGraphs.AliasDecodes | crates/discovery/src/reconcile.rs:374-389 | logical volumes whose names do not begin with a hyphen never share a mapper alias |
| DeviceGraphs.SharedAlias | crates/discovery/src/reconcile.rs:374-389 | exactly which pairs of names share one |
| DeviceGraphs.AliasAmbiguous | crates/discovery/src/reconcile.rs:374-389 | two that do |
| DeviceGraphs.FindsFirst | crates/discovery/src/reconcile.rs:399-417 | the recursive search finds the first answering device in preorder, and nothing only when none answers |
| DeviceGraphs.CollectIds | crates/discovery/src/reconcile.rs:419-433 | the sets gain exactly the identifiers found anywhere in the tree |

## Left out

- Real system calls, permissions, ownership, `/proc/self/fd`, inotify and path walking: trusted steps of the store, and a `faulty` store for every way they can fail or report a change.
- Somebody else editing the journal directory: seen only as a failure of a faulty store; a reliable store is used by one process at a time under the host lock.
- JSON encoding: the encoded length of a record is a parameter, decoding recovers what was written or fails, and serialization errors do not occur.
- Process ID, staging counter and inode numbers: parameters, with freshness checked by the exclusive create as in the program.
- Journals of other formats beside the store (`unclassified_runtime_evidence`): one boolean per call.
- Storage of history by journal ID: the inventory is a map, so the order in which `all` returns records is not modelled.
- LockedSessions.LockedSession.Persist: one body stands for the eight `persist_*` methods, which differ in the transition they pass; the extra evidence checks of the approval and precondition methods are arguments of the transition here.
- JournalStore.DurableStore.PersistIfMatches: failures that leave a torn staged file are those of staging; errors of closing files are not separate.
- The public `persist`, `inspect`, `unfinished` and the diagnostic output: they add only reading or a plain overwrite used by tests.
- IsolatedWriter.OutputFile.WriteAll: interruptions are finite in number, so that the loop ends.
- IsolatedWriter.NoDeadlock: exit codes and error texts other than those the parent looks at are merged.
- DependencyGraph.Search.Visit: the search starts from the nodes in any order, where the program uses the order of its tree map.
- ExecutionIntent.Freeze: the checks of session and approval before the loop, and the manifest's header fields, are not modelled.
- DisposableArgv.CompileGrowth: commands are the values their arguments are formatted from; fixed flags, standard input text and the kernel refresh command are not spelled out.
- The effect of `sfdisk`, `pvresize`, `lvextend` and filesystem tools, and LVM's own rounding: the agreement lemmas assume the requested change is applied exactly.
- DisposablePermits.PermitsInOrder: that the boundary presented with a permit completed the step of the permit before is a hypothesis; the program leaves it to its caller. That a permit is used at most once is not modelled.
- PlanRuns.PlanCompletes: the journal is advanced as a value, each transition being one that the session persists; capabilities are taken as unchanged, and the loop device as read once.
- BackupReceipts.ArtifactDirectory.Capture: the artifact directory is compared as text, where the program compares path components; a built manifest names it in one spelling only.
- BackupReceipts.ArtifactDirectory.Revalidate: blockers are a set; their texts, sorting and removal of duplicates are not modelled.
- BackupManifests.BuildRequirements: ordinals are unbounded, where the program counts in 32 bits; verification notes are omitted.
- Capability comparison, handoff construction, precondition evidence and operator consent: booleans or parameters.
- The production and privileged executors, the swap flow, planner geometry, discovery collectors, fstab and JSON decoding, CLI, TUI and rendering.
