/** The durable-record validator (crates/executor/src/journal_store.rs, `validate_journal`
    and its three binding validators).

    `ValidateJournal` runs the checks in source order and reports the first defect.
    `Valid` says the same declaratively; the lemmas below say what acceptance means. */
module JournalValidator {
  import opened Wrappers
  import opened Journals

  datatype Defect =
    | UnsupportedSchema
    | InvalidJournalId
    | NotHexDigest(field: string)
    | InvalidTarget
    | SequenceNotContiguous(sequence: nat)
    | DiscontinuousPhase(sequence: nat)
    | ImpossibleTransition(sequence: nat)
    | InvalidCode(sequence: nat)
    | PhaseMismatch
    | MutationFlagMismatch
    | ApprovalMissing
    | ApprovalUnexpected
    | ApprovalSchema
    | ApprovalPlanMismatch
    | ApprovalTargetMismatch
    | ApprovalFingerprint
    | ApprovalPreconditionsState
    | ExecutionMissing
    | ExecutionUnexpected
    | ExecutionSchema
    | ExecutionStepSequence
    | ExecutionJournalId
    | ExecutionPlan
    | ExecutionWithoutApproval
    | ExecutionApprovalId
    | ExecutionBaseline
    | ExecutionFingerprint
    | ExecutionApprovedState
    | BoundaryMissing
    | BoundaryUnexpected
    | BoundarySchema
    | BoundarySteps
    | BoundaryWithoutExecution
    | BoundaryExecutionId
    | BoundaryOrder
    | BoundaryFingerprint
    | TerminalVerificationMissing
    | TerminalVerificationEarly
    | TerminalStepMismatch
    | TerminalVerificationIncomplete
    | BoundaryPhase

  predicate AllowedTransition(from: Phase, to: Phase) {
    match from
    case Planned => to.HostLockHeld? || to.Aborted?
    case HostLockHeld => to.IdentityRevalidated? || to.Aborted?
    case IdentityRevalidated => to.PreconditionsVerified? || to.Aborted?
    case PreconditionsVerified => to.Approved? || to.Aborted?
    case Approved => to.Executing? || to.Aborted?
    case Executing => to.Verifying? || to.RecoveryRequired?
    case Verifying => to.Executing? || to.Completed? || to.RecoveryRequired?
    case Completed => false
    case Aborted => false
    case RecoveryRequired => false
  }

  predicate CodeAccepted(code: Code) {
    code.OtherCode? ==> PlainText(code.text)
  }

  /** Phase reached after a list of events. */
  function PhaseAfter(events: seq<Event>): Phase {
    if events == [] then Planned else events[|events| - 1].to
  }

  predicate EventFits(events: seq<Event>, i: nat)
    requires i < |events|
  {
    && events[i].sequence == i + 1
    && events[i].from == PhaseAfter(events[..i])
    && AllowedTransition(events[i].from, events[i].to)
    && CodeAccepted(events[i].code)
  }

  /** Every event continues the chain before it. */
  predicate ChainValid(events: seq<Event>) {
    forall i {:trigger EventFits(events, i)} :: 0 <= i < |events| ==> EventFits(events, i)
  }

  function EventDefect(event: Event, index: nat, phase: Phase): Option<Defect> {
    if event.sequence != index + 1 then Some(SequenceNotContiguous(index + 1))
    else if event.from != phase then Some(DiscontinuousPhase(event.sequence))
    else if !AllowedTransition(event.from, event.to) then Some(ImpossibleTransition(event.sequence))
    else if !CodeAccepted(event.code) then Some(InvalidCode(event.sequence))
    else None
  }

  predicate MutationExpected(phase: Phase) {
    phase.Executing? || phase.Verifying? || phase.Completed? || phase.RecoveryRequired?
  }

  /** Index of the first event with the given transition. */
  function FindTransition(events: seq<Event>, from: Phase, to: Phase): (index: Option<nat>)
    ensures index.Some? ==>
              && index.value < |events|
              && events[index.value].from == from && events[index.value].to == to
              && forall i :: 0 <= i < index.value ==> events[i].from != from || events[i].to != to
    ensures index.None? ==> forall i :: 0 <= i < |events| ==> events[i].from != from || events[i].to != to
  {
    if events == [] then None
    else
      var earlier := FindTransition(events[..|events| - 1], from, to);
      var last := events[|events| - 1];
      if earlier.Some? then earlier
      else if last.from == from && last.to == to then Some(|events| - 1)
      else None
  }

  /** The journal as it stood before approval, rebuilt by truncation. */
  function PreconditionsState(j: Journal, approvalIndex: nat): Journal
    requires approvalIndex <= |j.events|
  {
    j.(phase := PreconditionsVerified, mutationMayHaveStarted := false, approval := None,
       execution := None, verifiedBoundary := None, events := j.events[..approvalIndex])
  }

  /** The journal as it stood before execution started, rebuilt by truncation. */
  function ApprovedState(j: Journal, executionIndex: nat): Journal
    requires executionIndex <= |j.events|
  {
    j.(phase := Approved, mutationMayHaveStarted := false, execution := None,
       verifiedBoundary := None, events := j.events[..executionIndex])
  }

  predicate ApprovalHex(b: ApprovalBinding) {
    && IsHexDigest(b.approvalId) && IsHexDigest(b.planId) && IsHexDigest(b.evidenceBundleId)
    && IsHexDigest(b.targetManifestDigest) && IsHexDigest(b.lockedSessionId)
    && IsHexDigest(b.preconditionsJournalDigest)
  }

  predicate ExecutionHex(b: ExecutionBinding) {
    && IsHexDigest(b.executionId) && IsHexDigest(b.journalId) && IsHexDigest(b.planId)
    && IsHexDigest(b.approvalId) && IsHexDigest(b.sourceManifestId)
    && IsHexDigest(b.nativeManifestDigest) && IsHexDigest(b.freshIdentityDigest)
    && IsHexDigest(b.approvedJournalDigest)
  }

  function ApprovalDefect(j: Journal): Option<Defect> {
    var index := FindTransition(j.events, PreconditionsVerified, Approved);
    if j.approval.None? then (if index.None? then None else Some(ApprovalMissing))
    else if index.None? then Some(ApprovalUnexpected)
    else
      var b := j.approval.value;
      if b.schemaVersion != 1 then Some(ApprovalSchema)
      else if !ApprovalHex(b) then Some(NotHexDigest("approval"))
      else if b.planId != j.planId then Some(ApprovalPlanMismatch)
      else if b.targetManifestDigest != j.baselineManifestDigest then Some(ApprovalTargetMismatch)
      else if !b.IntegrityMatches() then Some(ApprovalFingerprint)
      else if b.preconditionsJournalDigest != DigestOf(PreconditionsState(j, index.value)) then
        Some(ApprovalPreconditionsState)
      else None
  }

  function ExecutionDefect(j: Journal): Option<Defect> {
    var index := FindTransition(j.events, Approved, Executing);
    if j.execution.None? then (if index.None? then None else Some(ExecutionMissing))
    else if index.None? then Some(ExecutionUnexpected)
    else
      var b := j.execution.value;
      if b.schemaVersion != 1 then Some(ExecutionSchema)
      else if !ExecutionHex(b) then Some(NotHexDigest("execution"))
      else if !ValidStepSequence(b.mutationStepIds) then Some(ExecutionStepSequence)
      else if b.journalId != j.journalId then Some(ExecutionJournalId)
      else if b.planId != j.planId then Some(ExecutionPlan)
      else if j.approval.None? then Some(ExecutionWithoutApproval)
      else if b.approvalId != j.approval.value.approvalId then Some(ExecutionApprovalId)
      else if b.freshIdentityDigest != j.baselineManifestDigest then Some(ExecutionBaseline)
      else if !b.IntegrityMatches() then Some(ExecutionFingerprint)
      else if b.approvedJournalDigest != DigestOf(ApprovedState(j, index.value)) then
        Some(ExecutionApprovedState)
      else None
  }

  predicate HasCode(events: seq<Event>, code: Code) {
    exists i :: 0 <= i < |events| && events[i].code == code
  }

  /** The part of the boundary check that looks at the terminal verification fields. */
  function TerminalDefect(j: Journal, b: BoundaryBinding, ids: seq<nat>): Option<Defect>
    requires |ids| > 0
  {
    var terminal := HasCode(j.events, CodeComplete);
    match (b.finalStepId, b.finalIdentityDigest)
    case (None, None) =>
      if b.schemaVersion != 1 || terminal || (j.phase.Completed? && |ids| > 1) then
        Some(TerminalVerificationMissing)
      else None
    case (Some(finalStep), Some(finalDigest)) =>
      if b.schemaVersion != 2 || !terminal || !j.phase.Completed? then Some(TerminalVerificationEarly)
      else if !IsHexDigest(finalDigest) then Some(NotHexDigest("terminal verification"))
      else if ids[|ids| - 1] != finalStep || b.nextStepId != finalStep then Some(TerminalStepMismatch)
      else None
    case (_, _) => Some(TerminalVerificationIncomplete)
  }

  function BoundaryDefect(j: Journal): Option<Defect> {
    var continued := HasCode(j.events, CodeContinue);
    if j.verifiedBoundary.None? then (if continued then Some(BoundaryMissing) else None)
    else if !continued then Some(BoundaryUnexpected)
    else
      var b := j.verifiedBoundary.value;
      if b.schemaVersion != 1 && b.schemaVersion != 2 then Some(BoundarySchema)
      else if !IsHexDigest(b.boundaryId) || !IsHexDigest(b.executionId)
              || !IsHexDigest(b.freshIdentityDigest) then Some(NotHexDigest("verified boundary"))
      else if b.completedStepId == 0 || b.nextStepId == 0 || b.completedStepId == b.nextStepId then
        Some(BoundarySteps)
      else if j.execution.None? then Some(BoundaryWithoutExecution)
      else if b.executionId != j.execution.value.executionId then Some(BoundaryExecutionId)
      else if !Consecutive(j.execution.value.mutationStepIds, b.completedStepId, b.nextStepId) then
        Some(BoundaryOrder)
      else if !b.IntegrityMatches() then Some(BoundaryFingerprint)
      else
        var terminal := TerminalDefect(j, b, j.execution.value.mutationStepIds);
        if terminal.Some? then terminal
        else if !MutationExpected(j.phase) then Some(BoundaryPhase)
        else None
  }

  predicate HeaderValid(j: Journal) {
    && j.schemaVersion == 1
    && IsHexDigest(j.journalId) && IsHexDigest(j.planId) && IsHexDigest(j.baselineManifestDigest)
    && PlainText(j.target)
  }

  /** What an accepted record satisfies. */
  predicate Valid(j: Journal) {
    && HeaderValid(j)
    && ChainValid(j.events)
    && j.phase == PhaseAfter(j.events)
    && j.mutationMayHaveStarted == MutationExpected(j.phase)
    && ApprovalDefect(j).None?
    && ExecutionDefect(j).None?
    && BoundaryDefect(j).None?
  }

  /** First defect of an event list, in event order. */
  function ChainDefect(events: seq<Event>): Option<Defect> {
    if events == [] then None
    else
      var n := |events| - 1;
      var earlier := ChainDefect(events[..n]);
      if earlier.Some? then earlier else EventDefect(events[n], n, PhaseAfter(events[..n]))
  }

  /** First defect of a record, in the order the source checks. */
  function RecordDefect(j: Journal): Option<Defect> {
    if j.schemaVersion != 1 then Some(UnsupportedSchema)
    else if !IsHexDigest(j.journalId) then Some(InvalidJournalId)
    else if !IsHexDigest(j.planId) then Some(NotHexDigest("plan ID"))
    else if !IsHexDigest(j.baselineManifestDigest) then Some(NotHexDigest("baseline manifest digest"))
    else if !PlainText(j.target) then Some(InvalidTarget)
    else if ChainDefect(j.events).Some? then ChainDefect(j.events)
    else if j.phase != PhaseAfter(j.events) then Some(PhaseMismatch)
    else if j.mutationMayHaveStarted != MutationExpected(j.phase) then Some(MutationFlagMismatch)
    else if ApprovalDefect(j).Some? then ApprovalDefect(j)
    else if ExecutionDefect(j).Some? then ExecutionDefect(j)
    else BoundaryDefect(j)
  }

  lemma {:induction false} ChainDefectIffInvalid(events: seq<Event>)
    ensures ChainDefect(events).None? <==> ChainValid(events)
  {
    if events != [] {
      var n := |events| - 1;
      var prefix := events[..n];
      ChainDefectIffInvalid(prefix);
      forall i | 0 <= i < n ensures EventFits(prefix, i) == EventFits(events, i) {
        assert prefix[..i] == events[..i];
      }
      assert EventFits(events, n) <==> EventDefect(events[n], n, PhaseAfter(prefix)).None?;
      if ChainValid(prefix) {
        forall i | 0 <= i < n ensures EventFits(events, i) {
          assert EventFits(prefix, i);
        }
      }
      if ChainValid(events) {
        assert EventFits(events, n);
        PrefixChain(events, n);
      }
    }
  }

  method ValidateJournal(j: Journal) returns (defect: Option<Defect>)
    ensures defect == RecordDefect(j)
    ensures defect.None? <==> Valid(j)
  {
    DefectIffInvalid(j);
    if j.schemaVersion != 1 { return Some(UnsupportedSchema); }
    if !IsHexDigest(j.journalId) { return Some(InvalidJournalId); }
    if !IsHexDigest(j.planId) { return Some(NotHexDigest("plan ID")); }
    if !IsHexDigest(j.baselineManifestDigest) {
      return Some(NotHexDigest("baseline manifest digest"));
    }
    if !PlainText(j.target) { return Some(InvalidTarget); }

    var phase := Planned;
    var index := 0;
    while index < |j.events|
      invariant 0 <= index <= |j.events|
      invariant phase == PhaseAfter(j.events[..index])
      invariant ChainDefect(j.events[..index]).None?
    {
      var event := j.events[index];
      defect := EventDefect(event, index, phase);
      assert j.events[..index + 1][..index] == j.events[..index];
      if defect.Some? {
        FirstDefectStays(j.events, index + 1);
        return;
      }
      phase := event.to;
      index := index + 1;
    }
    assert j.events[..index] == j.events;

    if phase != j.phase { return Some(PhaseMismatch); }
    if j.mutationMayHaveStarted != MutationExpected(j.phase) { return Some(MutationFlagMismatch); }
    defect := ApprovalDefect(j);
    if defect.Some? { return; }
    defect := ExecutionDefect(j);
    if defect.Some? { return; }
    defect := BoundaryDefect(j);
  }

  lemma DefectIffInvalid(j: Journal)
    ensures RecordDefect(j).None? <==> Valid(j)
  {
    ChainDefectIffInvalid(j.events);
  }

  lemma {:induction false} FirstDefectStays(events: seq<Event>, n: nat)
    requires n <= |events| && ChainDefect(events[..n]).Some?
    ensures ChainDefect(events) == ChainDefect(events[..n])
  {
    if n == |events| {
      assert events[..n] == events;
    } else {
      var prefix := events[..|events| - 1];
      assert prefix[..n] == events[..n];
      FirstDefectStays(prefix, n);
    }
  }

  // ----- the grammar of accepted event chains -----

  /** The only phase an event at this position can start from. */
  function PhaseSlot(i: nat): Phase {
    if i == 0 then Planned
    else if i == 1 then HostLockHeld
    else if i == 2 then IdentityRevalidated
    else if i == 3 then PreconditionsVerified
    else if i == 4 then Approved
    else if i % 2 == 1 then Executing
    else Verifying
  }

  /** Phases in which an event at this position may end the chain for good. */
  predicate EndSlot(i: nat, phase: Phase) {
    if i < 5 then phase.Aborted?
    else phase.RecoveryRequired? || (i % 2 == 0 && phase.Completed?)
  }

  /** The language of accepted phase lists: position i holds slot i+1, except that the
      last position may hold a terminal phase instead. */
  predicate InGrammar(phases: seq<Phase>) {
    forall i :: 0 <= i < |phases| ==>
      phases[i] == PhaseSlot(i + 1) || (i == |phases| - 1 && EndSlot(i, phases[i]))
  }

  function Targets(events: seq<Event>): seq<Phase> {
    seq(|events|, i requires 0 <= i < |events| => events[i].to)
  }

  /** An event of an accepted chain starts from its slot. */
  lemma {:induction false} ChainSlot(events: seq<Event>, i: nat)
    requires ChainValid(events) && i < |events|
    ensures events[i].from == PhaseSlot(i)
    ensures events[i].to == PhaseSlot(i + 1) || (i == |events| - 1 && EndSlot(i, events[i].to))
  {
    assert EventFits(events, i);
    if i > 0 {
      ChainSlot(events, i - 1);
      assert events[..i][i - 1] == events[i - 1];
    }
    if i < |events| - 1 {
      assert EventFits(events, i + 1);
      assert events[..i + 1][i] == events[i];
    }
  }

  /** The chain check accepts exactly the grammar: given consecutive numbers, proper codes
      and linked phases, a chain is accepted if and only if its phases are in the grammar. */
  lemma ChainGrammar(events: seq<Event>)
    requires forall i {:trigger events[i]} :: 0 <= i < |events| ==>
               && events[i].sequence == i + 1 && CodeAccepted(events[i].code)
               && events[i].from == PhaseAfter(events[..i])
    ensures ChainValid(events) <==> InGrammar(Targets(events))
  {
    var phases := Targets(events);
    if ChainValid(events) {
      forall i | 0 <= i < |phases|
        ensures phases[i] == PhaseSlot(i + 1) || (i == |phases| - 1 && EndSlot(i, phases[i]))
      {
        ChainSlot(events, i);
      }
    }
    if InGrammar(phases) {
      forall i | 0 <= i < |events| ensures EventFits(events, i) {
        assert phases[i] == events[i].to;
        if i > 0 {
          assert phases[i - 1] == events[i - 1].to && events[..i][i - 1] == events[i - 1];
        }
      }
    }
  }

  /** Approval and execution start are found only at positions 3 and 4. */
  lemma TransitionIndices(events: seq<Event>)
    requires ChainValid(events)
    ensures var a := FindTransition(events, PreconditionsVerified, Approved);
            a == if |events| > 3 && events[3].to.Approved? then Some(3) else None
    ensures var x := FindTransition(events, Approved, Executing);
            x == if |events| > 4 && events[4].to.Executing? then Some(4) else None
    ensures |events| > 4 ==> events[3].to.Approved?
    ensures |events| > 5 ==> events[4].to.Executing?
  {
    forall i | 0 <= i < |events|
      ensures events[i].from == PhaseSlot(i)
    {
      ChainSlot(events, i);
    }
    if |events| > 3 { ChainSlot(events, 3); }
    if |events| > 4 { ChainSlot(events, 4); }
  }

  /** What one event of an accepted chain may be. */
  lemma EventSlotFacts(events: seq<Event>, i: nat)
    requires ChainValid(events) && i < |events|
    ensures events[i].from.PreconditionsVerified? <==> i == 3
    ensures events[i].from.Approved? <==> i == 4
    ensures events[i].to.Approved? ==> i == 3
    ensures i == 4 ==> events[i].to.Executing? || events[i].to.Aborted?
    ensures events[i].to.Aborted? ==> i < 5 && i == |events| - 1
    ensures events[i].to.RecoveryRequired? ==> i >= 5 && i == |events| - 1
    ensures events[i].to.Completed? ==> i >= 5 && i == |events| - 1
    ensures MutationExpected(events[i].to) ==> i >= 4
    ensures i >= 5 ==> MutationExpected(events[i].to)
  {
    ChainSlot(events, i);
  }

  predicate Started(events: seq<Event>) {
    exists i :: 0 <= i < |events| && events[i].from.Approved? && events[i].to.Executing?
  }

  /** Approval happens at most once and only at event 3, start at most once and only at
      event 4, terminal phases only at the end and on their own side of the start, and
      the mutation flag is set exactly when the chain contains the start. */
  lemma EventChainGrammar(j: Journal)
    requires Valid(j)
    ensures InGrammar(Targets(j.events))
    ensures forall i :: 0 <= i < |j.events| ==>
              && (j.events[i].to.Approved? ==> i == 3)
              && (j.events[i].from.Approved? ==> i == 4)
              && (j.events[i].to.Aborted? ==> i < 5 && i == |j.events| - 1)
              && (j.events[i].to.RecoveryRequired? ==> i >= 5 && i == |j.events| - 1)
              && (j.events[i].to.Completed? ==> i >= 5 && i == |j.events| - 1)
    ensures j.mutationMayHaveStarted <==> Started(j.events)
    ensures j.approval.Some? <==> |j.events| > 3 && j.events[3].to.Approved?
    ensures j.execution.Some? <==> j.mutationMayHaveStarted
  {
    ChainGrammarOf(j.events);
    TransitionIndices(j.events);
    forall i | 0 <= i < |j.events|
      ensures j.events[i].to.Approved? ==> i == 3
      ensures j.events[i].from.Approved? ==> i == 4
      ensures j.events[i].to.Aborted? ==> i < 5 && i == |j.events| - 1
      ensures j.events[i].to.RecoveryRequired? ==> i >= 5 && i == |j.events| - 1
      ensures j.events[i].to.Completed? ==> i >= 5 && i == |j.events| - 1
    {
      EventSlotFacts(j.events, i);
    }
    StartedIffFlag(j);
  }

  lemma ChainGrammarOf(events: seq<Event>)
    requires ChainValid(events)
    ensures InGrammar(Targets(events))
  {
    forall i | 0 <= i < |events|
      ensures events[i].sequence == i + 1 && CodeAccepted(events[i].code)
              && events[i].from == PhaseAfter(events[..i])
    {
      assert EventFits(events, i);
    }
    ChainGrammar(events);
  }

  lemma StartedIffFlag(j: Journal)
    requires ChainValid(j.events) && j.phase == PhaseAfter(j.events)
    requires j.mutationMayHaveStarted == MutationExpected(j.phase)
    ensures j.mutationMayHaveStarted <==> |j.events| > 4 && j.events[4].to.Executing?
    ensures j.mutationMayHaveStarted <==> Started(j.events)
  {
    var n := |j.events|;
    if n > 0 { EventSlotFacts(j.events, n - 1); }
    if n > 4 {
      EventSlotFacts(j.events, 4);
      TransitionIndices(j.events);
      assert j.events[4].from.Approved?;
    }
    if Started(j.events) {
      var i :| 0 <= i < n && j.events[i].from.Approved? && j.events[i].to.Executing?;
      EventSlotFacts(j.events, i);
    }
  }

  // ----- nested reconstruction -----

  /** The Approved state rebuilt inside execution validation itself passes approval
      validation: both truncations rebuild the same PreconditionsVerified state. */
  lemma NestedReconstruction(j: Journal)
    requires Valid(j) && j.execution.Some?
    ensures |j.events| > 4 && j.approval.Some?
    ensures var approved := ApprovedState(j, 4);
            && PreconditionsState(approved, 3) == PreconditionsState(j, 3)
            && HeaderValid(approved) && ChainValid(approved.events)
            && approved.phase == PhaseAfter(approved.events)
            && ApprovalDefect(approved).None? && ExecutionDefect(approved).None?
            && j.execution.value.approvedJournalDigest == DigestOf(approved)
            && j.approval.value.preconditionsJournalDigest == DigestOf(PreconditionsState(j, 3))
  {
    TransitionIndices(j.events);
    var approved := ApprovedState(j, 4);
    PrefixChain(j.events, 4);
    TransitionIndices(approved.events);
    ChainSlot(j.events, 3);
    assert approved.events[3] == j.events[3];
    assert approved.events[..3] == j.events[..3];
  }

  lemma PrefixChain(events: seq<Event>, n: nat)
    requires ChainValid(events) && n <= |events|
    ensures ChainValid(events[..n])
  {
    forall i | 0 <= i < n ensures EventFits(events[..n], i) {
      assert EventFits(events, i);
      assert events[..n][..i] == events[..i];
    }
  }

  /** Exactly when the rebuilt Approved state is itself an acceptable record: codes are
      free text, so an early event may already claim a verified continuation. */
  lemma ApprovedStateAcceptable(j: Journal)
    requires Valid(j) && j.execution.Some?
    ensures |j.events| > 4
    ensures Valid(ApprovedState(j, 4)) <==> !HasCode(j.events[..4], CodeContinue)
  {
    NestedReconstruction(j);
  }

  /** Two accepted records carrying the same execution binding agree on everything up to
      the start of execution. */
  lemma SameExecutionSameApprovedState(a: Journal, b: Journal)
    requires Valid(a) && Valid(b) && a.execution.Some? && a.execution == b.execution
    ensures |a.events| > 4 && |b.events| > 4
    ensures a.journalId == b.journalId && a.planId == b.planId && a.target == b.target
    ensures a.baselineManifestDigest == b.baselineManifestDigest
    ensures a.approval == b.approval && a.events[..4] == b.events[..4]
  {
    NestedReconstruction(a);
    NestedReconstruction(b);
    assert DigestOf(ApprovedState(a, 4)) == DigestOf(ApprovedState(b, 4));
    assert ApprovedState(a, 4) == ApprovedState(b, 4);
  }

  // ----- terminal verification -----

  lemma ConsecutiveLast(ids: seq<nat>, first: nat, second: nat)
    requires Distinct(ids) && Consecutive(ids, first, second) && ids[|ids| - 1] == second
    ensures |ids| >= 2 && ids[|ids| - 2] == first
  {
    var i :| 0 <= i < |ids| - 1 && PairAt(ids, i, first, second);
    assert i + 1 == |ids| - 1;
  }

  /** What an accepted boundary binding says about the execution it belongs to. */
  lemma BoundaryFacts(j: Journal)
    requires BoundaryDefect(j).None? && j.verifiedBoundary.Some?
    ensures j.execution.Some?
    ensures var ids, b := j.execution.value.mutationStepIds, j.verifiedBoundary.value;
            && Consecutive(ids, b.completedStepId, b.nextStepId)
            && |ids| >= 2 && TerminalDefect(j, b, ids).None?
            && b.executionId == j.execution.value.executionId && b.IntegrityMatches()
  {
  }

  /** A completed execution that continued at least once carries a terminal verification:
      its final step is the last durable mutation step and its completed step the
      penultimate one. */
  lemma TerminalVerification(j: Journal)
    requires Valid(j) && j.phase.Completed? && HasCode(j.events, CodeContinue)
    ensures j.execution.Some? && j.verifiedBoundary.Some?
    ensures var ids, b := j.execution.value.mutationStepIds, j.verifiedBoundary.value;
            && |ids| >= 2
            && b.schemaVersion == 2 && HasCode(j.events, CodeComplete)
            && b.finalStepId == Some(ids[|ids| - 1]) && b.nextStepId == ids[|ids| - 1]
            && b.completedStepId == ids[|ids| - 2]
            && b.finalIdentityDigest.Some? && IsHexDigest(b.finalIdentityDigest.value)
            && b.executionId == j.execution.value.executionId && b.IntegrityMatches()
  {
    BoundaryFacts(j);
    var ids, b := j.execution.value.mutationStepIds, j.verifiedBoundary.value;
    assert Distinct(ids) by {
      assert ExecutionDefect(j).None?;
    }
    ConsecutiveLast(ids, b.completedStepId, b.nextStepId);
  }
}
