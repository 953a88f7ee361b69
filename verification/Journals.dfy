/** The operation journal and its transition function
    (crates/planner/src/execution_guard.rs).

    A journal is a value: every caller clones it before applying a transition and
    compares it by equality afterwards, so `apply` is a function from a journal and a
    transition to the next journal or an error. */
module Journals {
  import opened Wrappers
  import opened Operations

  /** Text held in an ID or digest field. SHA-256 over serialized data is an injective
      constructor: two digests are equal exactly when their preimages are. */
  datatype Digest = Literal(text: string) | Sha256(preimage: Preimage)

  /** Everything this program hashes. The serialized forms are pairwise distinct: a
      journal is a JSON object, the tuples are JSON arrays of different lengths and
      the attempt tuple starts with a domain-separation prefix. */
  datatype Preimage =
    | JournalJson(journal: Journal)
    | ApprovalTuple(
        schemaVersion: nat, planId: Digest, evidenceBundleId: Digest,
        targetManifestDigest: Digest, lockedSessionId: Digest, preconditionsJournalDigest: Digest)
    | ExecutionTuple(
        schemaVersion: nat, journalId: Digest, planId: Digest, approvalId: Digest,
        sourceManifestId: Digest, nativeManifestDigest: Digest, freshIdentityDigest: Digest,
        mutationStepIds: seq<nat>, approvedJournalDigest: Digest)
    | BoundaryTuple(
        schemaVersion: nat, executionId: Digest, completedStepId: nat, nextStepId: nat,
        freshIdentityDigest: Digest)
    | FinalBoundaryTuple(
        schemaVersion: nat, executionId: Digest, completedStepId: nat, nextStepId: nat,
        freshIdentityDigest: Digest, finalStepId: Option<nat>, finalIdentityDigest: Option<Digest>)
    | AttemptTuple(journalId: Digest, attempt: nat)
    | ManifestTuple(sourceManifestId: Digest, steps: seq<IntentStep>, barriers: seq<Barrier>)

  datatype Phase =
    | Planned
    | HostLockHeld
    | IdentityRevalidated
    | PreconditionsVerified
    | Approved
    | Executing
    | Verifying
    | Completed
    | Aborted
    | RecoveryRequired

  /** Event codes are free text on disk. The constructors stand for the texts that
      `apply` writes, `OtherCode` for any other text. */
  datatype Code =
    | CodeHostLock            // host-lock-acquired
    | CodeIdentity            // identity-revalidated
    | CodePreconditions       // preconditions-verified
    | CodeApproved            // exact-plan-approved
    | CodeStarted             // execution-started
    | CodeVerifying           // verification-started
    | CodeContinue            // verification-passed-continue
    | CodeComplete            // verification-passed-complete
    | CodeCompleted           // completed
    | CodeInterruptedAfter    // interrupted-after-mutation-boundary
    | CodeInterruptedBefore   // interrupted-before-mutation
    | CodeAbortAfter          // abort-after-mutation-boundary
    | CodeAborted             // aborted
    | OtherCode(text: string)

  /** Event details: the fixed sentence that goes with a code, the sentence naming a
      verified pair of steps, or any other text. Details are never validated. */
  datatype Detail = Standard | VerifiedPair(completed: nat, next: nat) | Remark(text: string)

  datatype Event = Event(sequence: nat, from: Phase, to: Phase, code: Code, detail: Detail)

  datatype ApprovalBinding = ApprovalBinding(
    schemaVersion: nat,
    approvalId: Digest,
    planId: Digest,
    evidenceBundleId: Digest,
    targetManifestDigest: Digest,
    lockedSessionId: Digest,
    preconditionsJournalDigest: Digest)
  {
    function ExpectedId(): Digest {
      Sha256(ApprovalTuple(schemaVersion, planId, evidenceBundleId, targetManifestDigest,
                           lockedSessionId, preconditionsJournalDigest))
    }

    predicate IntegrityMatches() {
      approvalId == ExpectedId()
    }
  }

  datatype ExecutionBinding = ExecutionBinding(
    schemaVersion: nat,
    executionId: Digest,
    journalId: Digest,
    planId: Digest,
    approvalId: Digest,
    sourceManifestId: Digest,
    nativeManifestDigest: Digest,
    freshIdentityDigest: Digest,
    mutationStepIds: seq<nat>,
    approvedJournalDigest: Digest)
  {
    function ExpectedId(): Digest {
      Sha256(ExecutionTuple(schemaVersion, journalId, planId, approvalId, sourceManifestId,
                            nativeManifestDigest, freshIdentityDigest, mutationStepIds,
                            approvedJournalDigest))
    }

    predicate IntegrityMatches() {
      executionId == ExpectedId()
    }
  }

  datatype BoundaryBinding = BoundaryBinding(
    schemaVersion: nat,
    boundaryId: Digest,
    executionId: Digest,
    completedStepId: nat,
    nextStepId: nat,
    freshIdentityDigest: Digest,
    finalStepId: Option<nat>,
    finalIdentityDigest: Option<Digest>)
  {
    function ExpectedId(): Digest {
      if schemaVersion == 1 then
        Sha256(BoundaryTuple(schemaVersion, executionId, completedStepId, nextStepId,
                             freshIdentityDigest))
      else
        Sha256(FinalBoundaryTuple(schemaVersion, executionId, completedStepId, nextStepId,
                                  freshIdentityDigest, finalStepId, finalIdentityDigest))
    }

    predicate IntegrityMatches() {
      boundaryId == ExpectedId()
    }
  }

  datatype Journal = Journal(
    schemaVersion: nat,
    journalId: Digest,
    planId: Digest,
    target: string,
    baselineManifestDigest: Digest,
    phase: Phase,
    mutationMayHaveStarted: bool,
    approval: Option<ApprovalBinding>,
    execution: Option<ExecutionBinding>,
    verifiedBoundary: Option<BoundaryBinding>,
    events: seq<Event>)

  /** The digest of a whole journal, `journal_digest` and `journal_content_digest`. */
  function DigestOf(journal: Journal): Digest {
    Sha256(JournalJson(journal))
  }

  predicate IsControl(c: char) {
    c as int < 0x20 || 0x7f <= c as int <= 0x9f
  }

  /** Non-empty text without a control character. */
  predicate PlainText(text: string) {
    text != "" && forall i :: 0 <= i < |text| ==> !IsControl(text[i])
  }

  predicate IsLowerHexDigit(c: char) {
    '0' <= c <= '9' || 'a' <= c <= 'f'
  }

  predicate IsLowerHex64(text: string) {
    |text| == 64 && forall i :: 0 <= i < |text| ==> IsLowerHexDigit(text[i])
  }

  /** `is_lower_hex_digest`: a computed digest always prints as 64 lowercase hex digits. */
  predicate IsHexDigest(d: Digest) {
    match d
    case Literal(text) => IsLowerHex64(text)
    case Sha256(_) => true
  }

  predicate Distinct(ids: seq<nat>) {
    forall i, j :: 0 <= i < j < |ids| ==> ids[i] != ids[j]
  }

  /** Non-empty, non-zero and without repetition. */
  predicate ValidStepSequence(ids: seq<nat>) {
    |ids| > 0 && 0 !in ids && Distinct(ids)
  }

  predicate PairAt(ids: seq<nat>, i: int, first: nat, second: nat) {
    0 <= i < |ids| - 1 && ids[i] == first && ids[i + 1] == second
  }

  /** `windows(2).any(..)`: `first` and `second` are adjacent in this order. */
  predicate Consecutive(ids: seq<nat>, first: nat, second: nat) {
    exists i :: 0 <= i < |ids| - 1 && PairAt(ids, i, first, second)
  }

  datatype Transition =
    | HostLockAcquired
    | RevalidateIdentity(freshManifestDigest: Digest)
    | VerifyPreconditions
    | ExactPlanApproved(approvedPlanId: Digest, approval: ApprovalBinding)
    | ExecutionStarted(binding: ExecutionBinding)
    | VerificationStarted
    | PassedContinue(completedStep: nat, nextStep: nat, identityDigest: Digest)
    | PassedComplete(completedStep: nat, identityDigest: Digest)
    | Complete
    | Interrupted(reason: string)
    | Abort(reason: string)

  datatype JournalError =
    | Terminal
    | InvalidTransition(phase: Phase)
    | IdentityMismatch
    | ApprovalMismatch
    | ApprovalBindingSchemaMismatch
    | ApprovalBindingPlanMismatch
    | ApprovalBindingTargetMismatch
    | ApprovalBindingIntegrityMismatch
    | ApprovalBindingJournalMismatch
    | ExecutionBindingApprovalMissing
    | ExecutionBindingSchemaMismatch
    | ExecutionBindingJournalIdMismatch
    | ExecutionBindingPlanMismatch
    | ExecutionBindingApprovalMismatch
    | ExecutionBindingIdentityMismatch
    | ExecutionBindingIntegrityMismatch
    | ExecutionBindingApprovedJournalMismatch
    | VerificationExecutionBindingMissing
    | VerificationSequenceMismatch
    | VerificationIdentityDigestInvalid
    | CompletionVerifiedBoundaryMismatch

  predicate IsTerminal(phase: Phase) {
    phase.Completed? || phase.Aborted? || phase.RecoveryRequired?
  }

  /** `OperationJournal::new` for a guard with the given identity. */
  function NewJournal(guardId: Digest, planId: Digest, target: string, baseline: Digest): Journal {
    Journal(1, guardId, planId, target, baseline, Planned, false, None, None, None, [])
  }

  /** Set the phase and append the event that records the step. */
  function Push(j: Journal, to: Phase, code: Code, detail: Detail): Journal {
    j.(phase := to, events := j.events + [Event(|j.events| + 1, j.phase, to, code, detail)])
  }

  function Advance(j: Journal, expected: Phase, to: Phase, code: Code, detail: Detail)
    : Result<Journal, JournalError>
  {
    if j.phase != expected then Err(InvalidTransition(j.phase))
    else Ok(Push(j, to, code, detail))
  }

  function ApplyApproval(j: Journal, approvedPlanId: Digest, approval: ApprovalBinding)
    : Result<Journal, JournalError>
  {
    if !j.phase.PreconditionsVerified? then Err(InvalidTransition(j.phase))
    else if approvedPlanId != j.planId then Err(ApprovalMismatch)
    else if approval.schemaVersion != 1 then Err(ApprovalBindingSchemaMismatch)
    else if approval.planId != j.planId then Err(ApprovalBindingPlanMismatch)
    else if approval.targetManifestDigest != j.baselineManifestDigest then Err(ApprovalBindingTargetMismatch)
    else if !approval.IntegrityMatches() then Err(ApprovalBindingIntegrityMismatch)
    else if DigestOf(j) != approval.preconditionsJournalDigest then Err(ApprovalBindingJournalMismatch)
    else
      Ok(Push(j, Approved, CodeApproved, Standard)
         .(approval := Some(approval)))
  }

  function ApplyStart(j: Journal, binding: ExecutionBinding): Result<Journal, JournalError> {
    if !j.phase.Approved? then Err(InvalidTransition(j.phase))
    else if j.approval.None? then Err(ExecutionBindingApprovalMissing)
    else if binding.schemaVersion != 1 then Err(ExecutionBindingSchemaMismatch)
    else if binding.journalId != j.journalId then Err(ExecutionBindingJournalIdMismatch)
    else if binding.planId != j.planId then Err(ExecutionBindingPlanMismatch)
    else if binding.approvalId != j.approval.value.approvalId then Err(ExecutionBindingApprovalMismatch)
    else if binding.freshIdentityDigest != j.baselineManifestDigest then Err(ExecutionBindingIdentityMismatch)
    else if !binding.IntegrityMatches() then Err(ExecutionBindingIntegrityMismatch)
    else if DigestOf(j) != binding.approvedJournalDigest then Err(ExecutionBindingApprovedJournalMismatch)
    else
      Ok(Push(j, Executing, CodeStarted, Standard)
         .(mutationMayHaveStarted := true, execution := Some(binding)))
  }

  function ApplyContinue(j: Journal, completed: nat, next: nat, digest: Digest)
    : Result<Journal, JournalError>
  {
    if !j.phase.Verifying? then Err(InvalidTransition(j.phase))
    else if j.execution.None? then Err(VerificationExecutionBindingMissing)
    else if completed == 0 || next == 0 || completed == next
            || !Consecutive(j.execution.value.mutationStepIds, completed, next) then
      Err(VerificationSequenceMismatch)
    else if !IsHexDigest(digest) then Err(VerificationIdentityDigestInvalid)
    else
      var draft := BoundaryBinding(1, Literal(""), j.execution.value.executionId, completed, next,
                                   digest, None, None);
      Ok(Push(j, Executing, CodeContinue, VerifiedPair(completed, next))
         .(verifiedBoundary := Some(draft.(boundaryId := draft.ExpectedId()))))
  }

  function ApplyComplete(j: Journal, completed: nat, digest: Digest): Result<Journal, JournalError> {
    if !j.phase.Verifying? then Err(InvalidTransition(j.phase))
    else if j.execution.None? then Err(VerificationExecutionBindingMissing)
    else
      var ids := j.execution.value.mutationStepIds;
      if |ids| < 2 || ids[|ids| - 1] != completed then Err(VerificationSequenceMismatch)
      else if !IsHexDigest(digest) then Err(VerificationIdentityDigestInvalid)
      else if j.verifiedBoundary.None? then Err(CompletionVerifiedBoundaryMismatch)
      else
        var boundary := j.verifiedBoundary.value;
        if boundary.executionId != j.execution.value.executionId
           || boundary.nextStepId != completed
           || !boundary.IntegrityMatches() then
          Err(CompletionVerifiedBoundaryMismatch)
        else
          var draft := boundary.(schemaVersion := 2, finalStepId := Some(completed),
                                 finalIdentityDigest := Some(digest));
          Ok(Push(j, Completed, CodeComplete, Standard)
             .(verifiedBoundary := Some(draft.(boundaryId := draft.ExpectedId()))))
  }

  /** `OperationJournal::apply`. */
  function Apply(j: Journal, t: Transition): Result<Journal, JournalError> {
    if IsTerminal(j.phase) then Err(Terminal)
    else
      match t
      case HostLockAcquired =>
        Advance(j, Planned, HostLockHeld, CodeHostLock, Standard)
      case RevalidateIdentity(digest) =>
        if !j.phase.HostLockHeld? then Err(InvalidTransition(j.phase))
        else if digest != j.baselineManifestDigest then Err(IdentityMismatch)
        else Advance(j, HostLockHeld, IdentityRevalidated, CodeIdentity, Standard)
      case VerifyPreconditions =>
        Advance(j, IdentityRevalidated, PreconditionsVerified, CodePreconditions, Standard)
      case ExactPlanApproved(planId, approval) => ApplyApproval(j, planId, approval)
      case ExecutionStarted(binding) => ApplyStart(j, binding)
      case VerificationStarted =>
        Advance(j, Executing, Verifying, CodeVerifying, Standard)
      case PassedContinue(completed, next, digest) => ApplyContinue(j, completed, next, digest)
      case PassedComplete(completed, digest) => ApplyComplete(j, completed, digest)
      case Complete =>
        if !j.phase.Verifying? then Err(InvalidTransition(j.phase))
        else if j.execution.None? then Err(VerificationExecutionBindingMissing)
        else if |j.execution.value.mutationStepIds| > 1 then Err(CompletionVerifiedBoundaryMismatch)
        else Advance(j, Verifying, Completed, CodeCompleted, Standard)
      case Interrupted(reason) =>
        if j.mutationMayHaveStarted || j.phase.Executing? || j.phase.Verifying? then
          Ok(Push(j, RecoveryRequired, CodeInterruptedAfter, Remark(reason)))
        else Ok(Push(j, Aborted, CodeInterruptedBefore, Remark(reason)))
      case Abort(reason) =>
        if j.mutationMayHaveStarted then Ok(Push(j, RecoveryRequired, CodeAbortAfter, Remark(reason)))
        else Ok(Push(j, Aborted, CodeAborted, Remark(reason)))
  }
}
