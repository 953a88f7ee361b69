/** Advancing the durable journal past a verified step
    (crates/executor/src/disposable_verify.rs, `verify_and_continue_disposable_boundary` and
    `verify_and_complete_disposable_execution`). */
module BoundarySessions {
  import opened Wrappers
  import opened Journals
  import opened JournalValidator
  import opened JournalUpdates
  import opened Disks
  import opened StoreStates
  import opened LockedSessions
  import opened TargetIdentity
  import opened ExecutionIntent
  import opened DisposableArgv
  import opened BoundaryChecks
  import opened DisposablePermits

  /** The session is in the middle of verifying a started execution. */
  predicate AtVerification(j: Journal) {
    j.phase.Verifying? && j.mutationMayHaveStarted && j.execution.Some?
  }

  /** What a continuation leaves in the journal. */
  predicate Continued(before: Journal, after: Journal, boundary: VerifiedBoundary) {
    && after.phase.Executing? && after.execution == before.execution && after.verifiedBoundary.Some?
    && after.verifiedBoundary.value.executionId == boundary.executionId
    && after.verifiedBoundary.value.completedStepId == boundary.completedStepId
    && after.verifiedBoundary.value.nextStepId == boundary.nextStepId
    && after.verifiedBoundary.value.freshIdentityDigest == boundary.freshIdentityDigest
    && after.verifiedBoundary.value.IntegrityMatches()
  }

  lemma ContinuedByApply(j: Journal, completed: nat, next: nat, digest: Digest)
    requires j.execution.Some? && Apply(j, PassedContinue(completed, next, digest)).Ok?
    ensures Continued(j, Apply(j, PassedContinue(completed, next, digest)).value,
                      VerifiedBoundary(j.execution.value.executionId, completed, next, digest))
  {
  }

  /** `verify_and_continue_disposable_boundary`. The journal advances only when the fresh
      state shows exactly the effect of the completed step, and then the durable record
      holds the boundary that is returned. */
  method VerifyAndContinue(session: LockedSession, v: Validated, baseline: Identity, current: Identity,
                           capabilitiesMatch: bool, completed: nat, w: WriteContext)
    returns (r: Result<VerifiedBoundary, VerifyError>, ghost steps: nat)
    requires session.Sound() && w.temp.Staging?
    modifies session`journal, session.store
    ensures session.Sound()
    ensures r.Err? ==> session.journal == old(session.journal)
    ensures r.Ok? ==>
              && session.store != null && steps == UPDATE_STEPS && capabilitiesMatch
              && AtVerification(old(session.journal))
              && BoundaryState(old(session.journal).execution.value, v, baseline, current, completed)
                 == Ok((r.value.nextStepId, r.value.freshIdentityDigest))
              && r.value.completedStepId == completed
              && Continued(old(session.journal), session.journal, r.value)
              && InSync(Live(session.store.disk), session.store.disk.files, session.journal)
    // a failed verification writes nothing
    ensures session.store != null && steps > 0 ==>
              && AtVerification(old(session.journal)) && capabilitiesMatch
              && BoundaryState(old(session.journal).execution.value, v, baseline, current, completed).Ok?
    ensures session.store != null && steps == 0 ==> session.store.disk == old(session.store.disk)
    // and on a reliable store a verified one is recorded whenever the session can write
    ensures session.store != null && !session.store.faulty ==>
              (r.Ok? <==>
                 && AtVerification(old(session.journal)) && capabilitiesMatch && !w.foreignEvidence
                 && var execution := old(session.journal).execution.value;
                    var verified := BoundaryState(execution, v, baseline, current, completed);
                    verified.Ok?
                    && CanWrite(old(session.store.disk), old(session.journal),
                                PassedContinue(completed, verified.value.0, verified.value.1), w))
  {
    steps := 0;
    var ready := session.RequireCurrent(w.foreignEvidence);
    var j := session.journal;
    if ready.Err? || !j.phase.Verifying? || !j.mutationMayHaveStarted {
      return Err(DurableVerificationStateRequired), steps;
    }
    if j.execution.None? { return Err(ExecutionBindingInvalid), steps; }
    if !capabilitiesMatch { return Err(CapabilityInventoryMismatch), steps; }
    var verified := BoundaryState(j.execution.value, v, baseline, current, completed);
    if verified.Err? { return Err(verified.error), steps; }
    var next, digest := verified.value.0, verified.value.1;
    var written;
    written, steps := session.Persist(PassedContinue(completed, next, digest), w);
    if written.Err? { return Err(PersistenceFailed), steps; }
    ContinuedByApply(j, completed, next, digest);
    return Ok(VerifiedBoundary(j.execution.value.executionId, completed, next, digest)), steps;
  }

  /** The boundary in the journal is the one that authorized this growth. */
  predicate AuthorizedBy(j: Journal, before: Identity, completed: nat)
    requires j.execution.Some? && j.verifiedBoundary.Some?
  {
    var b := j.verifiedBoundary.value;
    && b.IntegrityMatches() && b.executionId == j.execution.value.executionId
    && b.nextStepId == completed && b.freshIdentityDigest == before.manifestDigest
    && Consecutive(j.execution.value.mutationStepIds, b.completedStepId, b.nextStepId)
  }

  /** The checks before completion, in the program's order. */
  function CompletionCheck(j: Journal, v: Validated, before: Identity, current: Identity,
                           capabilitiesMatch: bool, completed: nat): Result<Digest, VerifyError>
  {
    if !j.phase.Verifying? || !j.mutationMayHaveStarted then Err(DurableVerificationStateRequired)
    else if j.execution.None? then Err(ExecutionBindingInvalid)
    else if !capabilitiesMatch then Err(CapabilityInventoryMismatch)
    else if j.verifiedBoundary.None? then Err(VerifiedBoundaryMissing)
    else if !AuthorizedBy(j, before, completed) then Err(VerifiedBoundaryIdentityMismatch)
    else TerminalState(j.execution.value, v, before, current, completed)
  }

  /** `verify_and_complete_disposable_execution`. Completion is recorded only when every
      check passed; a failed one writes nothing. */
  method VerifyAndComplete(session: LockedSession, v: Validated, before: Identity, current: Identity,
                           capabilitiesMatch: bool, completed: nat, w: WriteContext)
    returns (r: Result<Digest, VerifyError>, ghost steps: nat)
    requires session.Sound() && w.temp.Staging?
    modifies session`journal, session.store
    ensures session.Sound()
    ensures r.Err? ==> session.journal == old(session.journal)
    ensures r.Ok? ==>
              && session.store != null && steps == UPDATE_STEPS
              && CompletionCheck(old(session.journal), v, before, current, capabilitiesMatch, completed) == r
              && Apply(old(session.journal), PassedComplete(completed, r.value)) == Ok(session.journal)
              && InSync(Live(session.store.disk), session.store.disk.files, session.journal)
    ensures session.store != null && steps > 0 ==>
              CompletionCheck(old(session.journal), v, before, current, capabilitiesMatch, completed).Ok?
    ensures session.store != null && steps == 0 ==> session.store.disk == old(session.store.disk)
    ensures session.store != null && !session.store.faulty ==>
              (r.Ok? <==>
                 && !w.foreignEvidence
                 && CompletionCheck(old(session.journal), v, before, current, capabilitiesMatch, completed).Ok?
                 && CanWrite(old(session.store.disk), old(session.journal),
                             PassedComplete(completed, current.manifestDigest), w))
  {
    steps := 0;
    var ready := session.RequireCurrent(w.foreignEvidence);
    if ready.Err? { return Err(DurableVerificationStateRequired), steps; }
    CompletionChecked(session.journal, v, before, current, capabilitiesMatch, completed);
    var verified := CompletionCheck(session.journal, v, before, current, capabilitiesMatch, completed);
    if verified.Err? { return verified, steps; }
    var written;
    written, steps := session.Persist(PassedComplete(completed, verified.value), w);
    if written.Err? { return Err(PersistenceFailed), steps; }
    return verified, steps;
  }

  /** The checks as one condition: the last boundary authorized this growth and the fresh
      state shows it. */
  lemma CompletionChecked(j: Journal, v: Validated, before: Identity, current: Identity,
                          capabilitiesMatch: bool, completed: nat)
    ensures CompletionCheck(j, v, before, current, capabilitiesMatch, completed).Ok? <==>
            && AtVerification(j) && capabilitiesMatch && j.verifiedBoundary.Some?
            && AuthorizedBy(j, before, completed)
            && TerminalState(j.execution.value, v, before, current, completed).Ok?
    ensures CompletionCheck(j, v, before, current, capabilitiesMatch, completed).Ok? ==>
              CompletionCheck(j, v, before, current, capabilitiesMatch, completed) == Ok(current.manifestDigest)
  {
  }

  /** The journal ends Completed; its boundary names the last two durable steps, the
      identity that authorized the growth, and the identity that shows it. */
  predicate RecordsCompletion(j: Journal, n: Journal, before: Identity, current: Identity, completed: nat) {
    && n.phase.Completed? && n.execution == j.execution && j.execution.Some? && n.verifiedBoundary.Some?
    && var (b, ids) := (n.verifiedBoundary.value, j.execution.value.mutationStepIds);
       && |ids| >= 2 && ids[|ids| - 2..] == [b.completedStepId, completed]
       && b.finalStepId == Some(completed) && b.freshIdentityDigest == before.manifestDigest
       && b.finalIdentityDigest == Some(current.manifestDigest)
  }

  /** What completion records: once the checks have passed and the fresh digest is
      well-formed, the transition applies and its record is accepted. */
  lemma CompletionRecorded(j: Journal, v: Validated, before: Identity, current: Identity,
                           capabilitiesMatch: bool, completed: nat)
    requires Valid(j) && IsHexDigest(current.manifestDigest)
    requires CompletionCheck(j, v, before, current, capabilitiesMatch, completed).Ok?
    ensures var recorded := Apply(j, PassedComplete(completed, current.manifestDigest));
            recorded.Ok? && Valid(recorded.value)
            && RecordsCompletion(j, recorded.value, before, current, completed)
  {
    CompletionChecked(j, v, before, current, capabilitiesMatch, completed);
    CompletionApplies(j, v, before, current, completed);
    ApplyKeepsValid(j, PassedComplete(completed, current.manifestDigest));
    CompletionFields(j, before, current, completed);
  }

  lemma CompletionFields(j: Journal, before: Identity, current: Identity, completed: nat)
    requires Valid(j) && j.execution.Some? && j.verifiedBoundary.Some? && AuthorizedBy(j, before, completed)
    requires Apply(j, PassedComplete(completed, current.manifestDigest)).Ok?
    ensures RecordsCompletion(j, Apply(j, PassedComplete(completed, current.manifestDigest)).value,
                              before, current, completed)
  {
    var ids, b := j.execution.value.mutationStepIds, j.verifiedBoundary.value;
    assert Distinct(ids) by {
      assert ExecutionDefect(j).None?;
    }
    ConsecutiveLast(ids, b.completedStepId, b.nextStepId);
  }

  /** A continuation command is always exactly one, for the requested step. */
  lemma NextCommandIsOne(v: Validated, identity: Identity, id: nat)
    requires CompileNext(v, identity, id).Ok?
    ensures var commands := CompileNext(v, identity, id).value.commands;
            |commands| == 1 && commands[0].planStepId == id
  {
    var steps := Mutations(v.manifest.steps);
    MutationIdsOfMutations(v.manifest.steps);
    var i := FirstIndex(MutationIds(v.manifest.steps), id).value;
    assert steps[i].planStepId == id;
    CompileStepId(steps[i], identity);
  }

  /** A verified boundary is enough for the next permit: with the identity it was verified
      against, only the loop device or the command itself can still refuse it. */
  lemma BoundaryBinds(execution: ExecutionBinding, v: Validated, baseline: Identity, current: Identity,
                      completed: nat, loop: LoopEvidence)
    requires BoundaryState(execution, v, baseline, current, completed).Ok?
    ensures var next := BoundaryState(execution, v, baseline, current, completed).value.0;
            var boundary := VerifiedBoundary(execution.executionId, completed, next, current.manifestDigest);
            BindNext(v, current, loop, execution, boundary).Ok? <==>
            && loop.holds && loop.association == loop.owned
            && OwnedByLoop(current, loop.owned.device) && CompileNext(v, current, next).Ok?
  {
    BoundaryIsOrdered(execution, v, baseline, current, completed);
    var next := BoundaryState(execution, v, baseline, current, completed).value.0;
    if CompileNext(v, current, next).Ok? { NextCommandIsOne(v, current, next); }
  }

  /** Completion always succeeds in the journal once the terminal check has passed: what the
      check and the authorizing boundary establish is what the transition demands. */
  lemma CompletionApplies(j: Journal, v: Validated, before: Identity, current: Identity, completed: nat)
    requires AtVerification(j) && j.verifiedBoundary.Some? && AuthorizedBy(j, before, completed)
    requires TerminalState(j.execution.value, v, before, current, completed).Ok?
    ensures Apply(j, PassedComplete(completed, current.manifestDigest)).Ok? <==> IsHexDigest(current.manifestDigest)
  {
    assert |j.execution.value.mutationStepIds| >= 2;
  }

  /** A continuation that passed its check applies if and only if the identity digest is
      well-formed, for a binding with distinct nonzero steps. */
  lemma ContinuationApplies(j: Journal, v: Validated, baseline: Identity, current: Identity, completed: nat)
    requires AtVerification(j) && ValidStepSequence(j.execution.value.mutationStepIds)
    requires BoundaryState(j.execution.value, v, baseline, current, completed).Ok?
    ensures var next := BoundaryState(j.execution.value, v, baseline, current, completed).value.0;
            Apply(j, PassedContinue(completed, next, current.manifestDigest)).Ok? <==>
            IsHexDigest(current.manifestDigest)
  {
    BoundaryIsOrdered(j.execution.value, v, baseline, current, completed);
    var ids, next := j.execution.value.mutationStepIds,
                     BoundaryState(j.execution.value, v, baseline, current, completed).value.0;
    var i :| 0 <= i < |ids| - 1 && PairAt(ids, i, completed, next);
    assert ids[i] in ids && ids[i + 1] in ids && ids[i] != ids[i + 1];
  }
}
