/** Records of one operation, step by step, for any baseline and with a free code on the first
    event (crates/planner/src/execution_guard.rs). They are the inputs of the modules that
    show what can happen. */
module SampleRecords {
  import opened Wrappers
  import opened Journals
  import opened JournalValidator
  import opened JournalUpdates

  const ID: Digest := Sha256(AttemptTuple(Literal(""), 0))
  const OTHER: Digest := Sha256(AttemptTuple(Literal(""), 1))

  function New(baseline: Digest): Journal {
    NewJournal(ID, ID, "/", baseline)
  }

  /** The linked events and the fields nothing changes. */
  predicate Sound(j: Journal, length: nat) {
    && ChainValid(j.events) && j.phase == PhaseAfter(j.events) && |j.events| == length
    && HeaderValid(j) && j.journalId == j.planId == ID
    && j.mutationMayHaveStarted == MutationExpected(j.phase)
  }

  /** No event claims this code. */
  predicate Unclaimed(j: Journal, code: Code) {
    !HasCode(j.events, code)
  }

  function Step(j: Journal, to: Phase, code: Code): Journal {
    Push(j, to, code, Standard).(mutationMayHaveStarted := MutationExpected(to))
  }

  lemma StepSound(j: Journal, to: Phase, code: Code, length: nat)
    requires Sound(j, length) && AllowedTransition(j.phase, to) && CodeAccepted(code)
    ensures var n := Step(j, to, code);
            && Sound(n, length + 1) && n.phase == to && n.events[..length] == j.events
            && n.events[length].code == code && n.events[length].to == to
    ensures forall c :: Unclaimed(j, c) && c != code ==> Unclaimed(Step(j, to, code), c)
  {
    var e := Event(length + 1, j.phase, to, code, Standard);
    ChainAppend(j.events, e);
    forall c | Unclaimed(j, c) && c != code ensures Unclaimed(Step(j, to, code), c) {
      HasCodeAppend(j.events, e, c);
    }
  }

  lemma NewSound(baseline: Digest)
    requires IsHexDigest(baseline)
    ensures Sound(New(baseline), 0) && forall c :: Unclaimed(New(baseline), c)
  {
  }

  /** The state before approval, with this code on its first event. */
  lemma Prepare(baseline: Digest, first: Code) returns (j: Journal)
    requires CodeAccepted(first) && IsHexDigest(baseline)
    ensures Sound(j, 3) && j.phase.PreconditionsVerified? && j.events[0].code == first
    ensures j.approval.None? && j.execution.None? && j.verifiedBoundary.None? && j.baselineManifestDigest == baseline
    ensures forall c :: c != first && !c.CodeIdentity? && !c.CodePreconditions? ==> Unclaimed(j, c)
  {
    NewSound(baseline);
    var locked := Step(New(baseline), HostLockHeld, first);
    StepSound(New(baseline), HostLockHeld, first, 0);
    var revalidated := Step(locked, IdentityRevalidated, CodeIdentity);
    StepSound(locked, IdentityRevalidated, CodeIdentity, 1);
    j := Step(revalidated, PreconditionsVerified, CodePreconditions);
    StepSound(revalidated, PreconditionsVerified, CodePreconditions, 2);
    assert revalidated.events[0] == locked.events[0] by { assert revalidated.events[..1][0] == locked.events[0]; }
    assert j.events[0] == j.events[..2][0];
  }

  function ApprovalOf(prepared: Journal, bundle: Digest): ApprovalBinding {
    var draft := ApprovalBinding(1, Literal(""), ID, bundle, prepared.baselineManifestDigest, ID, DigestOf(prepared));
    draft.(approvalId := draft.ExpectedId())
  }

  function Approve(prepared: Journal, bundle: Digest): Journal {
    Step(prepared, Approved, CodeApproved).(approval := Some(ApprovalOf(prepared, bundle)))
  }

  /** The record carries an approval made for this prepared state. */
  predicate ApprovedOn(j: Journal, prepared: Journal, bundle: Digest) {
    && |j.events| > 3 && j.events[..3] == prepared.events && j.events[3].to.Approved?
    && j.approval == Some(ApprovalOf(prepared, bundle)) && IsHexDigest(bundle)
    && PreconditionsState(j, 3) == prepared
  }

  lemma ApproveSound(prepared: Journal, bundle: Digest)
    requires Sound(prepared, 3) && prepared.phase.PreconditionsVerified? && IsHexDigest(bundle)
    requires prepared.approval.None? && prepared.execution.None? && prepared.verifiedBoundary.None?
    ensures var j := Approve(prepared, bundle);
            && Sound(j, 4) && j.phase.Approved? && ApprovedOn(j, prepared, bundle)
            && j.execution.None? && j.verifiedBoundary.None?
    ensures forall c :: Unclaimed(prepared, c) && !c.CodeApproved? ==> Unclaimed(Approve(prepared, bundle), c)
  {
    StepSound(prepared, Approved, CodeApproved, 3);
    forall c | Unclaimed(prepared, c) && !c.CodeApproved? ensures Unclaimed(Approve(prepared, bundle), c) {
      assert Unclaimed(Step(prepared, Approved, CodeApproved), c);
    }
  }

  lemma ApprovalPasses(j: Journal, prepared: Journal, bundle: Digest)
    requires ChainValid(j.events) && ApprovedOn(j, prepared, bundle)
    requires j.planId == ID && IsHexDigest(j.baselineManifestDigest)
    ensures ApprovalDefect(j).None?
  {
    TransitionIndices(j.events);
  }

  function ExecutionOf(approved: Journal, approval: ApprovalBinding): ExecutionBinding {
    var draft := ExecutionBinding(1, Literal(""), ID, ID, approval.approvalId, ID, ID,
                                  approved.baselineManifestDigest, [1, 2], DigestOf(approved));
    draft.(executionId := draft.ExpectedId())
  }

  function Start(approved: Journal, approval: ApprovalBinding): Journal {
    Step(approved, Executing, CodeStarted).(execution := Some(ExecutionOf(approved, approval)))
  }

  /** The record carries an execution made for this approved state. */
  predicate StartedOn(j: Journal, approved: Journal) {
    && |j.events| > 4 && j.events[..4] == approved.events && j.events[4].to.Executing?
    && approved.approval.Some? && j.approval == approved.approval
    && IsHexDigest(approved.approval.value.approvalId)
    && j.execution == Some(ExecutionOf(approved, approved.approval.value))
    && ApprovedState(j, 4) == approved
  }

  lemma StartSound(approved: Journal, prepared: Journal)
    requires Sound(approved, 4) && approved.phase.Approved? && ApprovedOn(approved, prepared, ID)
    requires approved.execution.None? && approved.verifiedBoundary.None?
    ensures var j := Start(approved, approved.approval.value);
            && Sound(j, 5) && j.phase.Executing? && ApprovedOn(j, prepared, ID) && StartedOn(j, approved)
            && j.verifiedBoundary.None?
    ensures forall c :: Unclaimed(approved, c) && !c.CodeStarted? ==>
              Unclaimed(Start(approved, approved.approval.value), c)
  {
    var j := Start(approved, approved.approval.value);
    StepSound(approved, Executing, CodeStarted, 4);
    StillApproved(j, approved, prepared);
    assert ApprovedState(j, 4) == approved;
    forall c | Unclaimed(approved, c) && !c.CodeStarted? ensures Unclaimed(j, c) {
      assert Unclaimed(Step(approved, Executing, CodeStarted), c);
    }
  }

  lemma StillApproved(j: Journal, approved: Journal, prepared: Journal)
    requires ApprovedOn(approved, prepared, ID) && |approved.events| == 4 && approved.events <= j.events
    requires j.approval == approved.approval && SameOperation(j, approved)
    requires PreconditionsState(j, 3) == PreconditionsState(approved, 3)
    ensures ApprovedOn(j, prepared, ID)
  {
    assert j.events[..3] == approved.events[..3] && j.events[3] == approved.events[3];
  }

  lemma ExecutionPasses(j: Journal, approved: Journal)
    requires ChainValid(j.events) && StartedOn(j, approved)
    requires j.journalId == j.planId == ID && IsHexDigest(j.baselineManifestDigest)
    ensures ExecutionDefect(j).None?
  {
    TransitionIndices(j.events);
    assert ValidStepSequence([1, 2]);
  }

  /** A started operation with this code on its first event, and the states it went through. */
  lemma Execute(first: Code) returns (prepared: Journal, approved: Journal, j: Journal)
    requires CodeAccepted(first)
    ensures Sound(j, 5) && j.phase.Executing? && ApprovedOn(j, prepared, ID) && StartedOn(j, approved)
    ensures j.events[0].code == first && j.verifiedBoundary.None?
    ensures !first.CodeContinue? ==> Unclaimed(j, CodeContinue)
    ensures !first.CodeComplete? ==> Unclaimed(j, CodeComplete)
  {
    prepared := Prepare(ID, first);
    ApproveSound(prepared, ID);
    approved := Approve(prepared, ID);
    StartSound(approved, prepared);
    j := Start(approved, approved.approval.value);
    assert j.events[0] == j.events[..3][0];
  }

  lemma ApprovedValid(j: Journal, prepared: Journal, bundle: Digest)
    requires Sound(j, 4) && j.phase.Approved? && ApprovedOn(j, prepared, bundle)
    requires j.execution.None? && j.verifiedBoundary.None? && Unclaimed(j, CodeContinue)
    ensures Valid(j)
  {
    ApprovalPasses(j, prepared, bundle);
    TransitionIndices(j.events);
  }

  /** An approved record with this baseline. */
  lemma ApprovedFor(baseline: Digest) returns (j: Journal)
    requires IsHexDigest(baseline)
    ensures Valid(j) && j.phase.Approved? && j.baselineManifestDigest == baseline && HonestCodes(j.events)
  {
    var prepared := Prepare(baseline, CodeHostLock);
    ApproveSound(prepared, ID);
    j := Approve(prepared, ID);
    ApprovedValid(j, prepared, ID);
    assert Unclaimed(j, CodeComplete);
  }
}
