/** Binding an approved journal to a command plan
    (crates/planner/src/execution_guard.rs, `build_execution_start_binding`;
    crates/executor/src/disposable_start.rs). */
module ExecutionStarts {
  import opened Wrappers
  import opened Journals
  import opened JournalValidator
  import opened JournalUpdates
  import opened TargetIdentity
  import opened ExecutionIntent
  import opened DisposableArgv

  datatype StartError =
    | EmptyCommandPlan
    | JournalNotApproved
    | MutationAlreadyStarted
    | ApprovalMissing
    | InvalidSourceManifestId
    | InvalidNativeManifestDigest
    | FreshIdentityMismatch
    | InvalidMutationStepSequence

  function CommandIds(plan: CommandPlan): seq<nat> {
    Map(plan.commands, (c: Command) => c.planStepId)
  }

  /** `build_binding`: the durable step list is the list of the plan's commands. */
  function StartBinding(j: Journal, plan: CommandPlan): Result<ExecutionBinding, StartError> {
    var ids := CommandIds(plan);
    if ids == [] then Err(EmptyCommandPlan)
    else if !j.phase.Approved? then Err(JournalNotApproved)
    else if j.mutationMayHaveStarted || j.execution.Some? || j.verifiedBoundary.Some? then
      Err(MutationAlreadyStarted)
    else if j.approval.None? then Err(StartError.ApprovalMissing)
    else if !IsHexDigest(plan.sourceManifestId) then Err(InvalidSourceManifestId)
    else if !IsHexDigest(plan.nativeManifestDigest) then Err(InvalidNativeManifestDigest)
    else if plan.freshIdentityDigest != j.baselineManifestDigest then Err(FreshIdentityMismatch)
    else if !ValidStepSequence(ids) then Err(InvalidMutationStepSequence)
    else
      var draft := ExecutionBinding(1, Literal(""), j.journalId, j.planId, j.approval.value.approvalId,
                                    plan.sourceManifestId, plan.nativeManifestDigest,
                                    plan.freshIdentityDigest, ids, DigestOf(j));
      Ok(draft.(executionId := draft.ExpectedId()))
  }

  lemma StartFields(j: Journal, plan: CommandPlan)
    requires StartBinding(j, plan).Ok?
    ensures var b := StartBinding(j, plan).value;
            && b.schemaVersion == 1 && b.IntegrityMatches() && b.journalId == j.journalId && b.planId == j.planId
            && b.sourceManifestId == plan.sourceManifestId && b.nativeManifestDigest == plan.nativeManifestDigest
            && b.freshIdentityDigest == plan.freshIdentityDigest == j.baselineManifestDigest
            && b.mutationStepIds == CommandIds(plan) && ValidStepSequence(b.mutationStepIds)
            && b.approvedJournalDigest == DigestOf(j)
            && j.phase.Approved? && j.approval.Some? && b.approvalId == j.approval.value.approvalId
            && IsHexDigest(b.sourceManifestId) && IsHexDigest(b.nativeManifestDigest)
  {
  }

  /** A binding that could be built always starts the execution, and the started record is
      accepted. */
  lemma StartAccepted(j: Journal, plan: CommandPlan)
    requires Valid(j) && StartBinding(j, plan).Ok?
    ensures var t := ExecutionStarted(StartBinding(j, plan).value);
            && Apply(j, t).Ok? && Valid(Apply(j, t).value)
            && Apply(j, t).value.execution == Some(StartBinding(j, plan).value)
  {
    var b := StartBinding(j, plan).value;
    var t := ExecutionStarted(b);
    StartFields(j, plan);
    assert ApplyStart(j, b).Ok?;
    ApprovalIdHex(j);
    ApplyKeepsValid(j, t);
  }

  lemma ApprovedUnstarted(j: Journal)
    requires Valid(j) && j.phase.Approved?
    ensures j.approval.Some? && !j.mutationMayHaveStarted && j.execution.None? && j.verifiedBoundary.None?
  {
    BindingFacts(j);
  }

  /** An approved record can be bound to any plan for its target. */
  lemma ApprovedStarts(j: Journal, plan: CommandPlan)
    requires Valid(j) && j.phase.Approved? && ValidStepSequence(CommandIds(plan))
    requires IsHexDigest(plan.sourceManifestId) && IsHexDigest(plan.nativeManifestDigest)
    requires plan.freshIdentityDigest == j.baselineManifestDigest
    ensures StartBinding(j, plan).Ok?
  {
    ApprovedUnstarted(j);
  }

  lemma ApprovalIdHex(j: Journal)
    requires Valid(j) && j.approval.Some?
    ensures IsHexDigest(j.approval.value.approvalId)
    ensures IsHexDigest(j.journalId) && IsHexDigest(j.planId) && IsHexDigest(j.baselineManifestDigest)
  {
    assert ApprovalDefect(j).None?;
  }

  /** The durable list of a plan compiled from a manifest is its list of mutation steps; and
      any validated manifest the binding matches by digest is that manifest. */
  lemma DurableList(j: Journal, plan: CommandPlan, compiled: Validated, identity: Identity, v: Validated)
    requires StartBinding(j, plan).Ok? && IsPlanOf(plan, compiled, identity) && compiled.Bound()
    requires v.Bound() && StartBinding(j, plan).value.nativeManifestDigest == v.digest
    ensures StartBinding(j, plan).value.mutationStepIds == MutationIds(v.manifest.steps)
    ensures compiled == v
  {
    StartFields(j, plan);
    CommandsInOrder(plan, compiled, identity);
    var a := ManifestTuple(compiled.manifest.sourceManifestId, compiled.manifest.steps, compiled.manifest.barriers);
    var b := ManifestTuple(v.manifest.sourceManifestId, v.manifest.steps, v.manifest.barriers);
    assert compiled.digest == Sha256(a) && v.digest == Sha256(b);
    assert a == b;
  }
}
