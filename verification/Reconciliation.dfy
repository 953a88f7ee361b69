/** Aborting an abandoned operation before its first write
    (crates/executor/src/reconciliation.rs, `reconcile_prewrite_at`). */
module Reconciliation {
  import opened Wrappers
  import opened Journals
  import opened EntryNames
  import opened Disks
  import opened StoreStates
  import opened JournalStore
  import opened LockedSessions

  datatype ReconciliationError =
    | Store(error: StoreError)
    | ConfirmationMismatch
    | JournalChanged
    | AmbiguousMutation
    | AlreadyTerminal
    | NotApplied(reason: JournalError)

  /** The disk changes only when the directory is quiescent and the record shows that no
      mutation began; then some number of steps of the abort is taken. */
  ghost predicate AbortStep(d: Disk, j: Journal, reason: string, w: WriteContext, steps: nat, after: Disk) {
    && steps <= UPDATE_STEPS
    && (steps == 0 ==> after == d)
    && (steps > 0 ==>
          && InSync(Live(d), d.files, j) && !j.mutationMayHaveStarted
          && Apply(j, Abort(reason)).Ok?
          && UpdateReady(Live(d), d.files, SessionUpdate(j, Abort(reason), w))
          && (steps > 6 ==> w.encoded < MAX_JOURNAL_BYTES)
          && after == UpdateDisk(d, SessionUpdate(j, Abort(reason), w), steps))
  }

  /** When an abandoned record can be aborted: it is in sync, no mutation can have started,
      it is not terminal, and there is room for the new one. */
  ghost predicate CanAbort(d: Disk, j: Journal, reason: string, w: WriteContext) {
    && InSync(Live(d), d.files, j) && !j.mutationMayHaveStarted
    && Apply(j, Abort(reason)).Ok?
    && UpdateReady(Live(d), d.files, SessionUpdate(j, Abort(reason), w))
    && w.encoded < MAX_JOURNAL_BYTES
  }

  /** What the store's contract says about an abort, as a step. */
  lemma AbortOutcome(d: Disk, j: Journal, reason: string, w: WriteContext, steps: nat)
    requires Consistent(d) && InSync(Live(d), d.files, j) && !j.mutationMayHaveStarted
    requires Apply(j, Abort(reason)).Ok? && steps <= UPDATE_STEPS
    requires steps > 0 ==> UpdateReady(Live(d), d.files, SessionUpdate(j, Abort(reason), w))
    requires steps > 6 ==> w.encoded < MAX_JOURNAL_BYTES
    ensures var after := UpdateDisk(d, SessionUpdate(j, Abort(reason), w), steps);
            && AbortStep(d, j, reason, w, steps, after) && Consistent(after)
            && (steps == UPDATE_STEPS ==> InSync(Live(after), after.files, Apply(j, Abort(reason)).value))
  {
    var u := SessionUpdate(j, Abort(reason), w);
    StandingAlong(d, j, Abort(reason), w, steps);
    if steps > 0 { ArchiveNameFresh(Live(d), d.files, u); }
    StaysConsistent(d, u, steps);
  }

  /** The write of the abort, once every check has passed. */
  method WriteAbort(store: DurableStore, shown: Journal, reason: string, w: WriteContext)
    returns (r: Result<Journal, ReconciliationError>, ghost steps: nat)
    requires Consistent(store.disk) && w.temp.Staging?
    requires InSync(Live(store.disk), store.disk.files, shown) && !shown.mutationMayHaveStarted
    modifies store
    ensures Consistent(store.disk)
    ensures AbortStep(old(store.disk), shown, reason, w, steps, store.disk)
    ensures r.Ok? ==>
              && steps == UPDATE_STEPS && Apply(shown, Abort(reason)) == Ok(r.value)
              && InSync(Live(store.disk), store.disk.files, r.value)
    ensures !store.faulty ==> (r.Ok? <==> CanAbort(old(store.disk), shown, reason, w))
  {
    steps := 0;
    ghost var before := store.disk;
    var next := Apply(shown, Abort(reason));
    if next.Err? { return Err(NotApplied(next.error)), steps; }
    ghost var u;
    var written;
    written, u, steps := store.PersistIfMatches(shown, next.value, w.encoded, w.temp, w.inode);
    if UpdateReady(Live(before), before.files, u) { ArchiveNameFresh(Live(before), before.files, u); }
    AbortOutcome(before, shown, reason, w, steps);
    if written.Err? { return Err(Store(written.error)), steps; }
    return Ok(next.value), steps;
  }

  method ReconcilePrewrite(store: DurableStore, shown: Journal, confirmed: bool, reason: string, w: WriteContext)
    returns (r: Result<Journal, ReconciliationError>, ghost steps: nat)
    requires Consistent(store.disk) && w.temp.Staging?
    modifies store
    ensures Consistent(store.disk)
    ensures AbortStep(old(store.disk), shown, reason, w, steps, store.disk)
    ensures r.Ok? ==>
              && steps == UPDATE_STEPS && confirmed && Apply(shown, Abort(reason)) == Ok(r.value)
              && InSync(Live(store.disk), store.disk.files, r.value)
    ensures shown.mutationMayHaveStarted ==> r.Err? && steps == 0
    ensures !store.faulty ==> (r.Ok? <==> confirmed && CanAbort(old(store.disk), shown, reason, w))
  {
    steps := 0;
    var all := store.All();
    if all.Err? { return Err(Store(all.error)), steps; }
    var loaded := store.LoadPinned(Primary(shown.journalId), shown.journalId);
    if loaded.Err? { return Err(Store(loaded.error)), steps; }
    if loaded.value != shown { return Err(JournalChanged), steps; }
    if !confirmed { return Err(ConfirmationMismatch), steps; }
    if shown.mutationMayHaveStarted
       || shown.phase.Executing? || shown.phase.Verifying? || shown.phase.RecoveryRequired? {
      return Err(AmbiguousMutation), steps;
    }
    if shown.phase.Completed? || shown.phase.Aborted? { return Err(AlreadyTerminal), steps; }
    r, steps := WriteAbort(store, shown, reason, w);
  }
}
