/** What one transition does to an accepted record, and the relation between an archived
    record and the current one (crates/executor/src/journal_store.rs, `history_matches_final`). */
module JournalUpdates {
  import opened Wrappers
  import opened Journals
  import opened JournalValidator

  predicate SameOperation(a: Journal, b: Journal) {
    && a.journalId == b.journalId && a.planId == b.planId && a.target == b.target
    && a.baselineManifestDigest == b.baselineManifestDigest
  }

  /** The guard of a journal update: same operation, strictly more events. Approval and
      execution bindings are not compared. */
  predicate ExtendsHistory(expected: Journal, next: Journal) {
    SameOperation(expected, next) && expected.events < next.events
  }

  /** Bindings that are present stay as they are. */
  predicate Retains(older: Journal, newer: Journal) {
    && (older.approval.None? || older.approval == newer.approval)
    && (older.execution.None? || older.execution == newer.execution)
  }

  /** `history_matches_final`. */
  predicate HistoryMatchesFinal(history: Journal, final: Journal) {
    SameOperation(history, final) && Retains(history, final) && history.events < final.events
  }

  /** One step back in history: what matched the expected record still matches its update
      if and only if the update keeps the bindings that record matched. */
  lemma HistoryMatchesStep(history: Journal, expected: Journal, next: Journal)
    requires HistoryMatchesFinal(history, expected) && ExtendsHistory(expected, next)
    requires Retains(expected, next)
    ensures HistoryMatchesFinal(history, next)
  {
    assert history.events <= next.events;
  }

  // ----- transitions keep records acceptable -----

  /** The arguments that `apply` itself does not check but the validator does. */
  predicate Acceptable(j: Journal, t: Transition) {
    match t
    case ExactPlanApproved(_, approval) => ApprovalHex(approval)
    case ExecutionStarted(binding) => ExecutionHex(binding) && ValidStepSequence(binding.mutationStepIds)
    case PassedContinue(_, _, _) => !HasCode(j.events, CodeComplete)
    case _ => true
  }

  /** The event a successful transition appends. */
  lemma ApplyAppends(j: Journal, t: Transition)
    requires Apply(j, t).Ok?
    ensures var n := Apply(j, t).value;
            && |n.events| == |j.events| + 1 && n.events[..|j.events|] == j.events
            && n.events[|j.events|].sequence == |j.events| + 1
            && n.events[|j.events|].from == j.phase && n.events[|j.events|].to == n.phase
            && PhaseAfter(n.events) == n.phase
            && ExtendsHistory(j, n) && n.schemaVersion == j.schemaVersion
            && !IsTerminal(j.phase)
  {
    var n := Apply(j, t).value;
    var e := n.events[|j.events|];
    assert n.events == j.events + [e];
    assert n.events[..|j.events|] == j.events;
  }

  lemma HasCodeAppend(events: seq<Event>, e: Event, code: Code)
    ensures HasCode(events + [e], code) <==> HasCode(events, code) || e.code == code
  {
    var longer := events + [e];
    if HasCode(events, code) {
      var i :| 0 <= i < |events| && events[i].code == code;
      assert longer[i].code == code;
    }
    if e.code == code {
      assert longer[|events|].code == code;
    }
  }

  lemma ChainAppend(events: seq<Event>, e: Event)
    requires ChainValid(events)
    requires e.sequence == |events| + 1 && e.from == PhaseAfter(events)
    requires AllowedTransition(e.from, e.to) && CodeAccepted(e.code)
    ensures ChainValid(events + [e])
  {
    var longer := events + [e];
    forall i | 0 <= i < |longer| ensures EventFits(longer, i) {
      if i < |events| {
        assert EventFits(events, i);
        assert longer[..i] == events[..i];
      } else {
        assert longer[..i] == events;
      }
    }
  }

  /** A successful transition follows the phase graph and keeps the mutation flag in step. */
  lemma ApplyAllowed(j: Journal, t: Transition)
    requires Apply(j, t).Ok? && j.mutationMayHaveStarted == MutationExpected(j.phase)
    ensures var n := Apply(j, t).value;
            && AllowedTransition(j.phase, n.phase)
            && n.mutationMayHaveStarted == MutationExpected(n.phase)
            && (j.mutationMayHaveStarted ==> n.mutationMayHaveStarted)
    ensures CodeAccepted(Apply(j, t).value.events[|j.events|].code)
  {
  }

  lemma ApplyHeader(j: Journal, t: Transition)
    requires Valid(j) && Apply(j, t).Ok?
    ensures var n := Apply(j, t).value;
            && HeaderValid(n) && ChainValid(n.events) && n.phase == PhaseAfter(n.events)
            && n.mutationMayHaveStarted == MutationExpected(n.phase)
  {
    var n := Apply(j, t).value;
    ApplyAppends(j, t);
    ApplyAllowed(j, t);
    var e := n.events[|j.events|];
    assert n.events == j.events + [e];
    ChainAppend(j.events, e);
  }

  /** Appending an event leaves earlier transitions where they were. */
  lemma FindTransitionAppend(events: seq<Event>, e: Event, from: Phase, to: Phase)
    ensures FindTransition(events + [e], from, to)
            == if FindTransition(events, from, to).Some? then FindTransition(events, from, to)
               else if e.from == from && e.to == to then Some(|events|)
               else None
  {
    var longer := events + [e];
    assert longer[..|longer| - 1] == events && longer[|longer| - 1] == e;
  }

  /** Where the bindings of an accepted record stand, phase by phase. */
  lemma BindingFacts(j: Journal)
    requires Valid(j)
    ensures FindTransition(j.events, PreconditionsVerified, Approved) == if j.approval.Some? then Some(3) else None
    ensures FindTransition(j.events, Approved, Executing) == if j.execution.Some? then Some(4) else None
    ensures j.execution.Some? <==> j.mutationMayHaveStarted
    ensures j.verifiedBoundary.Some? ==> j.execution.Some?
    ensures j.execution.Some? ==> j.approval.Some? && |j.events| > 4
    ensures j.approval.Some? ==> |j.events| > 3
    ensures j.phase.PreconditionsVerified? ==> |j.events| == 3 && j.approval.None?
    ensures j.phase.Approved? ==> |j.events| == 4 && j.approval.Some?
  {
    TransitionIndices(j.events);
    StartedIffFlag(j);
    var n := |j.events|;
    if n > 0 {
      EventSlotFacts(j.events, n - 1);
      ChainSlot(j.events, n - 1);
    }
  }

  /** What a successful transition does to the bindings. */
  lemma ApplyShape(j: Journal, t: Transition)
    requires Apply(j, t).Ok?
    ensures var n := Apply(j, t).value;
            && SameOperation(j, n) && n.schemaVersion == j.schemaVersion
            && n.approval == (if t.ExactPlanApproved? then Some(t.approval) else j.approval)
            && n.execution == (if t.ExecutionStarted? then Some(t.binding) else j.execution)
            && (n.verifiedBoundary == j.verifiedBoundary || t.PassedContinue? || t.PassedComplete?)
    ensures t.ExactPlanApproved? ==>
              && j.phase.PreconditionsVerified? && ApplyApproval(j, t.approvedPlanId, t.approval).Ok?
    ensures t.ExecutionStarted? ==> j.phase.Approved? && ApplyStart(j, t.binding).Ok?
    ensures var to := Apply(j, t).value.phase;
            && (j.phase.PreconditionsVerified? && to.Approved? ==> t.ExactPlanApproved?)
            && (j.phase.Approved? && to.Executing? ==> t.ExecutionStarted?)
  {
  }

  /** A transition of an accepted journal extends it by one event, keeps its bindings and
      never lets go of the mutation flag. */
  lemma ApplyRetains(j: Journal, t: Transition)
    requires Valid(j) && Apply(j, t).Ok?
    ensures var n := Apply(j, t).value;
            && HistoryMatchesFinal(j, n)
            && |n.events| == |j.events| + 1
            && (j.mutationMayHaveStarted ==> n.mutationMayHaveStarted)
  {
    ApplyAppends(j, t);
    ApplyAllowed(j, t);
    ApplyShape(j, t);
    BindingFacts(j);
  }

  lemma ApprovalDefectKept(j: Journal, n: Journal, e: Event)
    requires n.events == j.events + [e] && n.approval == j.approval
    requires SameOperation(j, n) && n.schemaVersion == j.schemaVersion
    requires !(e.from.PreconditionsVerified? && e.to.Approved?)
    ensures ApprovalDefect(n) == ApprovalDefect(j)
  {
    FindTransitionAppend(j.events, e, PreconditionsVerified, Approved);
    var a := FindTransition(j.events, PreconditionsVerified, Approved);
    if a.Some? {
      assert n.events[..a.value] == j.events[..a.value];
      assert PreconditionsState(n, a.value) == PreconditionsState(j, a.value);
    }
  }

  lemma ExecutionDefectKept(j: Journal, n: Journal, e: Event)
    requires n.events == j.events + [e] && n.execution == j.execution
    requires n.approval == j.approval || j.execution.None?
    requires SameOperation(j, n) && n.schemaVersion == j.schemaVersion
    requires !(e.from.Approved? && e.to.Executing?)
    ensures ExecutionDefect(n) == ExecutionDefect(j)
  {
    FindTransitionAppend(j.events, e, Approved, Executing);
    var x := FindTransition(j.events, Approved, Executing);
    if x.Some? {
      assert n.events[..x.value] == j.events[..x.value];
      if j.execution.Some? {
        assert ApprovedState(n, x.value) == ApprovedState(j, x.value);
      }
    }
  }

  lemma ApplyApprovalDefect(j: Journal, t: Transition)
    requires Valid(j) && Apply(j, t).Ok?
    ensures ApprovalDefect(Apply(j, t).value).None? <==>
            (t.ExactPlanApproved? ==> ApprovalHex(t.approval))
  {
    var n := Apply(j, t).value;
    ApplyAppends(j, t);
    ApplyShape(j, t);
    var e := n.events[|j.events|];
    assert n.events == j.events + [e];
    if t.ExactPlanApproved? {
      BindingFacts(j);
      FindTransitionAppend(j.events, e, PreconditionsVerified, Approved);
      assert n.events[..|j.events|] == j.events;
      assert PreconditionsState(n, |j.events|) == j;
    } else {
      ApprovalDefectKept(j, n, e);
    }
  }

  lemma ApplyExecutionDefect(j: Journal, t: Transition)
    requires Valid(j) && Apply(j, t).Ok?
    ensures ExecutionDefect(Apply(j, t).value).None? <==>
            (t.ExecutionStarted? ==> ExecutionHex(t.binding) && ValidStepSequence(t.binding.mutationStepIds))
  {
    if t.ExecutionStarted? {
      StartExecutionDefect(j, t);
    } else {
      var n := Apply(j, t).value;
      ApplyAppends(j, t);
      ApplyShape(j, t);
      BindingFacts(j);
      ExecutionDefectKept(j, n, n.events[|j.events|]);
    }
  }

  lemma StartExecutionDefect(j: Journal, t: Transition)
    requires Valid(j) && Apply(j, t).Ok? && t.ExecutionStarted?
    ensures ExecutionDefect(Apply(j, t).value).None? <==>
            ExecutionHex(t.binding) && ValidStepSequence(t.binding.mutationStepIds)
  {
    var n := Apply(j, t).value;
    BindingFacts(j);
    var e := n.events[|j.events|];
    assert n.events == j.events + [e];
    FindTransitionAppend(j.events, e, Approved, Executing);
    assert n.events[..|j.events|] == j.events;
    assert ApprovedState(n, |j.events|) == j;
  }

  lemma BoundaryDefectKept(j: Journal, n: Journal, e: Event)
    requires n.events == j.events + [e] && n.verifiedBoundary == j.verifiedBoundary
    requires j.verifiedBoundary.Some? ==> n.execution == j.execution && BoundaryDefect(j).None?
    requires BoundaryDefect(j).None?
    requires !e.code.CodeContinue? && !e.code.CodeComplete?
    requires !j.phase.Completed?
    requires j.verifiedBoundary.Some? ==>
               && MutationExpected(n.phase)
               && (n.phase.Completed? ==> |j.execution.value.mutationStepIds| <= 1)
    ensures BoundaryDefect(n).None?
  {
    HasCodeAppend(j.events, e, CodeContinue);
    HasCodeAppend(j.events, e, CodeComplete);
    if j.verifiedBoundary.Some? {
      BoundaryFacts(j);
    }
  }

  lemma ContinueBoundary(j: Journal, t: Transition)
    requires Valid(j) && Apply(j, t).Ok? && t.PassedContinue?
    ensures BoundaryDefect(Apply(j, t).value).None? <==> !HasCode(j.events, CodeComplete)
  {
    var n := Apply(j, t).value;
    ContinueFields(j, t);
    HasCodeAppend(j.events, n.events[|j.events|], CodeContinue);
    HasCodeAppend(j.events, n.events[|j.events|], CodeComplete);
    assert IsHexDigest(j.execution.value.executionId) by {
      assert ExecutionDefect(j).None?;
    }
  }

  /** The boundary a continuation records. */
  lemma ContinueFields(j: Journal, t: Transition)
    requires Apply(j, t).Ok? && t.PassedContinue?
    ensures var n := Apply(j, t).value;
            && |n.events| == |j.events| + 1 && n.events == j.events + [n.events[|j.events|]]
            && n.events[|j.events|].code == CodeContinue
            && n.phase.Executing? && j.execution.Some? && n.execution == j.execution && n.verifiedBoundary.Some?
    ensures var b := Apply(j, t).value.verifiedBoundary.value;
            && b.schemaVersion == 1 && b.IntegrityMatches() && IsHexDigest(b.boundaryId)
            && b.executionId == j.execution.value.executionId && IsHexDigest(b.freshIdentityDigest)
            && b.completedStepId != 0 && b.nextStepId != 0 && b.completedStepId != b.nextStepId
            && Consecutive(j.execution.value.mutationStepIds, b.completedStepId, b.nextStepId)
            && b.finalStepId.None? && b.finalIdentityDigest.None?
  {
  }

  lemma CompleteBoundary(j: Journal, t: Transition)
    requires Valid(j) && Apply(j, t).Ok? && t.PassedComplete?
    ensures BoundaryDefect(Apply(j, t).value).None?
  {
    var n := Apply(j, t).value;
    CompleteFields(j, t);
    HasCodeAppend(j.events, n.events[|j.events|], CodeContinue);
    HasCodeAppend(j.events, n.events[|j.events|], CodeComplete);
    BoundaryFacts(j);
  }

  /** The boundary a completion records: the last one with the terminal fields. */
  lemma CompleteFields(j: Journal, t: Transition)
    requires Apply(j, t).Ok? && t.PassedComplete?
    ensures var n := Apply(j, t).value;
            && |n.events| == |j.events| + 1 && n.events == j.events + [n.events[|j.events|]]
            && n.events[|j.events|].code == CodeComplete
            && n.phase.Completed? && j.execution.Some? && n.execution == j.execution
            && j.verifiedBoundary.Some? && n.verifiedBoundary.Some?
    ensures var b, a, ids := Apply(j, t).value.verifiedBoundary.value, j.verifiedBoundary.value,
                             j.execution.value.mutationStepIds;
            && b.schemaVersion == 2 && b.IntegrityMatches() && IsHexDigest(b.boundaryId)
            && b.executionId == a.executionId && b.freshIdentityDigest == a.freshIdentityDigest
            && b.completedStepId == a.completedStepId && b.nextStepId == a.nextStepId == t.completedStep
            && |ids| >= 2 && ids[|ids| - 1] == t.completedStep && b.finalStepId == Some(t.completedStep)
            && b.finalIdentityDigest.Some? && IsHexDigest(b.finalIdentityDigest.value)
  {
  }

  /** The code of the appended event, and when a record completes without a terminal
      verification. */
  lemma ApplyCode(j: Journal, t: Transition)
    requires Apply(j, t).Ok?
    ensures |Apply(j, t).value.events| == |j.events| + 1
    ensures var n := Apply(j, t).value;
            var e := n.events[|j.events|];
            && (e.code.CodeContinue? <==> t.PassedContinue?)
            && (e.code.CodeComplete? <==> t.PassedComplete?)
            && (t.PassedComplete? ==> e.to.Completed?)
            && (t.PassedContinue? ==> j.phase.Verifying?)
            && (n.phase.Completed? && !t.PassedComplete? ==>
                  j.execution.Some? && |j.execution.value.mutationStepIds| <= 1)
  {
  }

  lemma OtherBoundary(j: Journal, t: Transition)
    requires Valid(j) && Apply(j, t).Ok? && !t.PassedContinue? && !t.PassedComplete?
    ensures BoundaryDefect(Apply(j, t).value).None?
  {
    var n := Apply(j, t).value;
    ApplyAppends(j, t);
    ApplyAllowed(j, t);
    ApplyShape(j, t);
    ApplyCode(j, t);
    BindingFacts(j);
    var e := n.events[|j.events|];
    assert n.events == j.events + [e];
    BoundaryDefectKept(j, n, e);
  }

  lemma ApplyBoundaryDefect(j: Journal, t: Transition)
    requires Valid(j) && Apply(j, t).Ok?
    ensures BoundaryDefect(Apply(j, t).value).None? <==>
            (t.PassedContinue? ==> !HasCode(j.events, CodeComplete))
  {
    if t.PassedContinue? {
      ContinueBoundary(j, t);
    } else if t.PassedComplete? {
      CompleteBoundary(j, t);
    } else {
      OtherBoundary(j, t);
    }
  }

  /** A transition applied to an accepted record gives an accepted record exactly when its
      arguments are acceptable. */
  lemma ApplyKeepsValid(j: Journal, t: Transition)
    requires Valid(j) && Apply(j, t).Ok?
    ensures Valid(Apply(j, t).value) <==> Acceptable(j, t)
  {
    ApplyHeader(j, t);
    ApplyApprovalDefect(j, t);
    ApplyExecutionDefect(j, t);
    ApplyBoundaryDefect(j, t);
  }

  /** The validator's free event codes let a record be accepted whose next verified
      continuation is rejected: an early event that claims the terminal code. */
  predicate HonestCodes(events: seq<Event>) {
    forall i :: 0 <= i < |events| ==> (events[i].code.CodeComplete? ==> events[i].to.Completed?)
  }

  lemma HonestBeforeCompletion(j: Journal)
    requires ChainValid(j.events) && j.phase == PhaseAfter(j.events) && HonestCodes(j.events)
    requires !IsTerminal(j.phase)
    ensures !HasCode(j.events, CodeComplete)
  {
    if HasCode(j.events, CodeComplete) {
      var i :| 0 <= i < |j.events| && j.events[i].code == CodeComplete;
      EventSlotFacts(j.events, i);
    }
  }

  /** Journals built by `apply` alone have honest codes, so continuation always keeps them
      acceptable. */
  lemma HonestContinuation(j: Journal, t: Transition)
    requires Valid(j) && HonestCodes(j.events) && Apply(j, t).Ok?
    ensures HonestCodes(Apply(j, t).value.events)
    ensures t.PassedContinue? ==> Acceptable(j, t)
  {
    ApplyCode(j, t);
    ApplyAppends(j, t);
    var e := Apply(j, t).value.events[|j.events|];
    HonestAppend(j.events, e);
    assert Apply(j, t).value.events == j.events + [e];
    HonestBeforeCompletion(j);
  }

  lemma HonestAppend(events: seq<Event>, e: Event)
    requires HonestCodes(events) && (e.code.CodeComplete? ==> e.to.Completed?)
    ensures HonestCodes(events + [e])
  {
  }
}
