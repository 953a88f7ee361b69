/** Whole executions of a plan: from the approved journal over every permit and verified
    boundary to completion (crates/executor/src/disposable_permit.rs lines 122-239,
    crates/executor/src/disposable_verify.rs lines 406-525). Every growth is applied
    exactly; what else the target must be like is the condition of the main result. */
module PlanRuns {
  import opened Wrappers
  import opened Operations
  import opened Journals
  import opened JournalValidator
  import opened JournalUpdates
  import opened DependencyGraph
  import opened TargetIdentity
  import opened ExecutionIntent
  import opened NativeManifests
  import opened DisposableArgv
  import opened ExecutionStarts
  import opened DisposablePermits
  import opened BoundaryChecks
  import opened BoundarySessions
  import opened PlanTargets

  // ----- the run -----

  /** The journal and the identity between two steps. */
  datatype Moment = Moment(journal: Journal, identity: Identity)

  /** One growth applied exactly: its boundary is checked against the fresh identity and
      recorded, and the permit for the next step is bound. Nothing, if anything is refused. */
  function Advance(p: Setting, k: nat, m: Moment): Option<Moment>
    requires k + 1 < |p.Steps()|
  {
    var done, identity := p.Steps()[k].planStepId, p.After(p.Steps()[k].operation, m.identity);
    var verifying := Apply(m.journal, VerificationStarted);
    var boundary := BoundaryState(p.execution, p.v, p.base, identity, done);
    if verifying.Err? || boundary.Err? then None
    else
      var (next, digest) := boundary.value;
      var recorded := Apply(verifying.value, PassedContinue(done, next, digest));
      var permit := BindNext(p.v, identity, p.loop, p.execution,
                             VerifiedBoundary(p.execution.executionId, done, next, digest));
      if recorded.Err? || permit.Err? then None else Some(Moment(recorded.value, identity))
  }

  /** The filesystem's growth, checked and recorded as completion. */
  function Finish(p: Setting, m: Moment): Option<Journal>
    requires |p.Steps()| > 0
  {
    var last, grown := p.Steps()[|p.Steps()| - 1].planStepId, p.AfterFilesystem(m.identity);
    var verifying := Apply(m.journal, VerificationStarted);
    if verifying.Err? then None
    else
      var check := CompletionCheck(verifying.value, p.v, m.identity, grown, true, last);
      if check.Err? then None
      else
        var recorded := Apply(verifying.value, PassedComplete(last, check.value));
        if recorded.Err? then None else Some(recorded.value)
  }

  /** Everything from this step on. */
  function RunFrom(p: Setting, k: nat, m: Moment): Option<Journal>
    requires k < |p.Steps()|
    decreases |p.Steps()| - k
  {
    if k + 1 == |p.Steps()| then Finish(p, m)
    else
      var next := Advance(p, k, m);
      if next.None? then None else RunFrom(p, k + 1, next.value)
  }

  /** The first permit and everything after it, from the journal that the execution started:
      the journal it ends with, if it gets through. */
  function Run(p: Setting, started: Journal): Option<Journal>
    requires |p.Steps()| > 0
  {
    if BindFirst(p.plan, p.base, p.loop, p.execution, p.Steps()[0].planStepId).Err? then None
    else RunFrom(p, 0, Moment(started, p.base))
  }

  // ----- what holds along a run -----

  /** The boundary is recorded. */
  ghost predicate RecordPasses(p: Setting, k: nat, j: Journal, identity: Identity, next: Journal)
    requires k + 1 < |p.Steps()|
  {
    Apply(j, VerificationStarted).Ok?
    && Apply(Apply(j, VerificationStarted).value,
             PassedContinue(p.Steps()[k].planStepId, p.Steps()[k + 1].planStepId, identity.manifestDigest)) == Ok(next)
  }

  ghost predicate JournalReady(p: Setting, k: nat, m: Moment)
    requires IsStack(p.Steps()) && k < |p.Steps()|
  {
    && Valid(m.journal) && m.journal.phase.Executing? && HonestCodes(m.journal.events)
    && m.journal.execution == Some(p.execution)
    && (k > 0 ==>
          && m.journal.verifiedBoundary.Some? && AuthorizedBy(m.journal, m.identity, p.Steps()[k].planStepId)
          && StepEffect(p.Steps()[k - 1].operation, p.v.manifest, p.base, m.identity).None?)
  }

  /** Everything is ready for the step at this position. */
  ghost predicate Ready(p: Setting, k: nat, m: Moment) {
    Fits(p) && k < |p.Steps()| && IdentityReady(p, k, m.identity) && JournalReady(p, k, m)
  }

  /** Verification can always begin. */
  lemma Verifies(j: Journal) returns (verifying: Journal)
    requires Valid(j) && j.phase.Executing? && HonestCodes(j.events) && j.execution.Some?
    ensures Apply(j, VerificationStarted) == Ok(verifying)
    ensures Valid(verifying) && AtVerification(verifying) && HonestCodes(verifying.events)
    ensures verifying.execution == j.execution && verifying.verifiedBoundary == j.verifiedBoundary
    ensures ValidStepSequence(j.execution.value.mutationStepIds)
  {
    verifying := Apply(j, VerificationStarted).value;
    ApplyKeepsValid(j, VerificationStarted);
    HonestContinuation(j, VerificationStarted);
    ApplyShape(j, VerificationStarted);
    BindingFacts(verifying);
    assert ExecutionDefect(j).None?;
  }

  /** A boundary that was verified is recorded. */
  lemma Records(p: Setting, k: nat, m: Moment, identity: Identity) returns (next: Journal)
    requires Bound(p) && k + 1 < |p.Steps()| && JournalReady(p, k, m) && IdentityReady(p, k + 1, identity)
    requires BoundaryPasses(p, k, identity)
    requires StepEffect(p.Steps()[k].operation, p.v.manifest, p.base, identity).None?
    ensures RecordPasses(p, k, m.journal, identity, next)
    ensures JournalReady(p, k + 1, Moment(next, identity))
  {
    var verifying := Verifies(m.journal);
    var t := PassedContinue(p.Steps()[k].planStepId, p.Steps()[k + 1].planStepId, identity.manifestDigest);
    ContinuationApplies(verifying, p.v, p.base, identity, p.Steps()[k].planStepId);
    next := Continue(verifying, t);
  }

  lemma Continue(j: Journal, t: Transition) returns (next: Journal)
    requires Valid(j) && HonestCodes(j.events) && t.PassedContinue? && Apply(j, t).Ok?
    ensures Apply(j, t) == Ok(next) && Valid(next) && next.phase.Executing? && HonestCodes(next.events)
    ensures j.execution.Some? && next.execution == j.execution && next.verifiedBoundary.Some?
    ensures var b := next.verifiedBoundary.value;
            && b.IntegrityMatches() && b.executionId == j.execution.value.executionId
            && b.completedStepId == t.completedStep && b.nextStepId == t.nextStep
            && b.freshIdentityDigest == t.identityDigest
            && Consecutive(j.execution.value.mutationStepIds, t.completedStep, t.nextStep)
  {
    next := Apply(j, t).value;
    HonestContinuation(j, t);
    ApplyKeepsValid(j, t);
    ContinueFields(j, t);
  }

  // ----- one growth -----

  lemma AdvanceIs(p: Setting, k: nat, m: Moment, identity: Identity)
    requires k + 1 < |p.Steps()| && identity == p.After(p.Steps()[k].operation, m.identity)
    requires BoundaryState(p.execution, p.v, p.base, identity, p.Steps()[k].planStepId).Ok?
             ==> BoundaryPasses(p, k, identity)
    ensures Advance(p, k, m).Some? ==>
              && BoundaryPasses(p, k, identity) && PermitPasses(p, k, identity)
              && RecordPasses(p, k, m.journal, identity, Advance(p, k, m).value.journal)
              && Advance(p, k, m).value.identity == identity
    ensures forall next :: BoundaryPasses(p, k, identity) && PermitPasses(p, k, identity)
                           && RecordPasses(p, k, m.journal, identity, next) ==>
              Advance(p, k, m) == Some(Moment(next, identity))
  {
  }

  /** What the checks after this growth say, all together. */
  lemma Checked(p: Setting, k: nat, m: Moment, identity: Identity)
    requires Ready(p, k, m) && k + 1 < |p.Steps()| && identity == p.After(p.Steps()[k].operation, m.identity)
    ensures BoundaryPasses(p, k, identity) && PermitPasses(p, k, identity) <==> Gate(p, k)
    ensures IdentityReady(p, k + 1, identity)
    ensures BoundaryState(p.execution, p.v, p.base, identity, p.Steps()[k].planStepId).Ok? ==>
              BoundaryPasses(p, k, identity)
    ensures BoundaryPasses(p, k, identity) ==>
              StepEffect(p.Steps()[k].operation, p.v.manifest, p.base, identity).None?
  {
    BoundaryAt(p, k, m.identity);
    GateExact(p, k, m.identity, identity);
  }

  /** One growth gets through when it and the target suit each other. */
  lemma AdvanceWhen(p: Setting, k: nat, m: Moment)
    requires Ready(p, k, m) && k + 1 < |p.Steps()| && Gate(p, k)
    ensures Advance(p, k, m).Some?
  {
    var identity := p.After(p.Steps()[k].operation, m.identity);
    Checked(p, k, m, identity);
    AdvanceIs(p, k, m, identity);
    var next := Records(p, k, m, identity);
  }

  /** And only then; everything is ready for the next step. */
  lemma AdvanceOnlyWhen(p: Setting, k: nat, m: Moment, m': Moment)
    requires Ready(p, k, m) && k + 1 < |p.Steps()| && Advance(p, k, m) == Some(m')
    ensures Gate(p, k) && Ready(p, k + 1, m')
  {
    var identity := p.After(p.Steps()[k].operation, m.identity);
    Checked(p, k, m, identity);
    AdvanceIs(p, k, m, identity);
    var next := Records(p, k, m, identity);
  }

  // ----- the filesystem -----

  lemma FinishChecked(p: Setting, m: Moment, verifying: Journal)
    requires |p.Steps()| > 0 && Ready(p, |p.Steps()| - 1, m) && p.base.routeStatus.SupportedProfile? && Room(p)
    requires AtVerification(verifying) && verifying.execution == Some(p.execution)
    requires verifying.verifiedBoundary == m.journal.verifiedBoundary
    ensures var last, grown := p.Steps()[|p.Steps()| - 1].planStepId, p.AfterFilesystem(m.identity);
            var check := CompletionCheck(verifying, p.v, m.identity, grown, true, last);
            && (check.Ok? <==> Recognizable(p))
            && (check.Ok? ==> check.value == grown.manifestDigest)
  {
    TerminalExact(p, m.identity);
    CompletionChecked(verifying, p.v, m.identity, p.AfterFilesystem(m.identity), true,
                      p.Steps()[|p.Steps()| - 1].planStepId);
  }

  /** The run ended in an accepted, completed record of the execution. */
  ghost predicate Succeeds(p: Setting, result: Option<Journal>) {
    result.Some? && Valid(result.value) && result.value.phase.Completed? && result.value.execution == Some(p.execution)
  }

  lemma FinishIs(p: Setting, m: Moment, verifying: Journal)
    requires |p.Steps()| > 0 && Apply(m.journal, VerificationStarted) == Ok(verifying)
    ensures var last, grown := p.Steps()[|p.Steps()| - 1].planStepId, p.AfterFilesystem(m.identity);
            var check := CompletionCheck(verifying, p.v, m.identity, grown, true, last);
            && (check.Err? ==> Finish(p, m).None?)
            && (check.Ok? && Apply(verifying, PassedComplete(last, check.value)).Ok? ==>
                  Finish(p, m) == Some(Apply(verifying, PassedComplete(last, check.value)).value))
  {
  }

  /** Completion gets through if and only if the filesystem can be recognized and has grown;
      its record is accepted. */
  lemma FinishExact(p: Setting, m: Moment)
    requires |p.Steps()| > 0 && Ready(p, |p.Steps()| - 1, m) && p.base.routeStatus.SupportedProfile? && Room(p)
    ensures Finish(p, m).Some? <==> Recognizable(p)
    ensures Finish(p, m).Some? ==> Succeeds(p, Finish(p, m))
  {
    var last, grown := p.Steps()[|p.Steps()| - 1].planStepId, p.AfterFilesystem(m.identity);
    var verifying := Verifies(m.journal);
    FinishIs(p, m, verifying);
    FinishChecked(p, m, verifying);
    if Recognizable(p) {
      CompletionRecorded(verifying, p.v, m.identity, grown, true, last);
    }
  }

  // ----- the whole run -----

  /** What a run from here comes to: it gets through if and only if every growth left can and
      the filesystem suits, and then it succeeds. In the lemmas below `ready` and `decided`
      stand for the predicates they are equal to. */
  ghost predicate Decided(p: Setting, k: nat, result: Option<Journal>)
    requires IsStack(p.Steps())
  {
    && (result.Some? <==> GatesFrom(p, k) && Room(p) && Recognizable(p))
    && (result.Some? ==> Succeeds(p, result))
  }

  lemma RunLast(p: Setting, k: nat, m: Moment)
    requires Ready(p, k, m) && k + 1 == |p.Steps()| && p.base.routeStatus.SupportedProfile? && Room(p)
    ensures RunFrom(p, k, m).Some? <==> Recognizable(p)
    ensures RunFrom(p, k, m).Some? ==> Succeeds(p, RunFrom(p, k, m))
  {
    FinishExact(p, m);
  }

  lemma RunRefused(p: Setting, k: nat, m: Moment)
    requires Ready(p, k, m) && k + 1 < |p.Steps()| && Advance(p, k, m).None?
    ensures RunFrom(p, k, m).None? && !Gate(p, k)
  {
    if Gate(p, k) { AdvanceWhen(p, k, m); }
  }

  lemma RunLastIs(p: Setting, k: nat, m: Moment, ready: bool) returns (decided: bool)
    requires ready && ready == Ready(p, k, m)
    requires k + 1 == |p.Steps()| && IsStack(p.Steps()) && p.base.routeStatus.SupportedProfile? && Room(p)
    ensures decided && decided == Decided(p, k, RunFrom(p, k, m))
  {
    RunLast(p, k, m);
    decided := Decided(p, k, RunFrom(p, k, m));
  }

  lemma RunRefusedIs(p: Setting, k: nat, m: Moment, ready: bool) returns (decided: bool)
    requires ready && ready == Ready(p, k, m) && k + 1 < |p.Steps()| && Advance(p, k, m).None?
    ensures IsStack(p.Steps()) && decided && decided == Decided(p, k, RunFrom(p, k, m))
  {
    RunRefused(p, k, m);
    GatesNext(p, k);
    decided := Decided(p, k, RunFrom(p, k, m));
  }

  /** After one growth the rest decides. */
  lemma RunNext(p: Setting, k: nat, m: Moment, m': Moment)
    requires Ready(p, k, m) && k + 1 < |p.Steps()| && Advance(p, k, m) == Some(m')
    ensures RunFrom(p, k, m) == RunFrom(p, k + 1, m') && Ready(p, k + 1, m')
    ensures IsStack(p.Steps()) && p.base.routeStatus.SupportedProfile? && (k + 2 == |p.Steps()| ==> Room(p))
    ensures GatesFrom(p, k) == GatesFrom(p, k + 1)
  {
    AdvanceOnlyWhen(p, k, m, m');
    GatesNext(p, k);
  }

  /** One step decides the run or hands it on. */
  lemma RunStep(p: Setting, k: nat, m: Moment, ready: bool, result: Option<Journal>)
    returns (m': Option<Moment>, next: bool, decided: bool)
    requires ready && ready == Ready(p, k, m) && k + 1 < |p.Steps()| && IsStack(p.Steps())
    requires result == RunFrom(p, k, m)
    ensures m'.None? ==> decided && decided == Decided(p, k, result)
    ensures m'.Some? ==> next && next == Ready(p, k + 1, m'.value)
    ensures m'.Some? ==> result == RunFrom(p, k + 1, m'.value) && GatesFrom(p, k) == GatesFrom(p, k + 1)
    ensures m'.Some? && k + 2 == |p.Steps()| ==> p.base.routeStatus.SupportedProfile? && Room(p)
  {
    m', next, decided := Advance(p, k, m), false, false;
    match m'
    case None => decided := RunRefusedIs(p, k, m, ready);
    case Some(after) =>
      RunNext(p, k, m, after);
      next := Ready(p, k + 1, after);
  }

  lemma SameDecision(p: Setting, k: nat, result: Option<Journal>, decided: bool)
    requires IsStack(p.Steps()) && GatesFrom(p, k) == GatesFrom(p, k + 1) && decided == Decided(p, k + 1, result)
    ensures decided == Decided(p, k, result)
  {
  }

  /** Every run from a ready moment is decided so. */
  lemma {:induction false} RunFromExact(p: Setting, k: nat, m: Moment, ready: bool, result: Option<Journal>)
    returns (decided: bool)
    requires ready && ready == Ready(p, k, m) && k < |p.Steps()| && IsStack(p.Steps())
    requires k + 1 == |p.Steps()| ==> p.base.routeStatus.SupportedProfile? && Room(p)
    requires result == RunFrom(p, k, m)
    ensures decided && decided == Decided(p, k, result)
    decreases |p.Steps()| - k
  {
    if k + 1 == |p.Steps()| {
      decided := RunLastIs(p, k, m, ready);
    } else {
      var m', next;
      m', next, decided := RunStep(p, k, m, ready, result);
      if m'.Some? {
        decided := RunFromExact(p, k + 1, m'.value, next, result);
        SameDecision(p, k, result, decided);
      }
    }
  }

  /** The whole run gets through if and only if plan and target suit each other. */
  lemma RunExact(p: Setting, started: Journal)
    requires Fits(p) && JournalReady(p, 0, Moment(started, p.base))
    ensures Run(p, started).Some? <==> Suits(p)
    ensures Run(p, started).Some? ==> Succeeds(p, Run(p, started))
  {
    FirstBinds(p);
    SuitsGates(p);
    if LoopReady(p) {
      StartIdentity(p);
      var decided := RunFromExact(p, 0, Moment(started, p.base), Ready(p, 0, Moment(started, p.base)),
                                  RunFrom(p, 0, Moment(started, p.base)));
    }
  }

  // ----- from the approval -----

  lemma PlanStack(v: Validated, base: Identity)
    requires Compilable(v.manifest.steps, base)
    ensures IsStack(Mutations(v.manifest.steps)) && CompileFrom(Mutations(v.manifest.steps), 0, base)
  {
    var layers :| LayersAre(Mutations(v.manifest.steps), layers) && Supported(layers);
    StackOf(Mutations(v.manifest.steps), layers);
  }

  /** The steps of a compiled plan are a durable list. */
  lemma PlanSequence(v: Validated, base: Identity, plan: CommandPlan)
    requires DistinctIds(NodesOf(v.manifest.steps)) && IsStack(Mutations(v.manifest.steps))
    requires IsPlanOf(plan, v, base)
    ensures ValidStepSequence(CommandIds(plan)) && CommandIds(plan) == MutationIds(v.manifest.steps)
  {
    CommandsInOrder(plan, v, base);
    StepIdsDistinct(v.manifest.steps);
    MutationIdsDistinct(v.manifest.steps);
    MutationIdsOfMutations(v.manifest.steps);
    forall i | 0 <= i < |v.manifest.steps| ensures v.manifest.steps[i].planStepId != 0 {
      assert NodesOf(v.manifest.steps)[i].id != 0;
    }
  }

  /** The execution that an approved journal starts is ready to run. */
  lemma StartFits(j: Journal, p: Setting)
    requires Valid(j) && j.phase.Approved? && HonestCodes(j.events)
    requires DistinctIds(NodesOf(p.v.manifest.steps)) && RolesFit(p.v.manifest.steps)
    requires Compilable(p.v.manifest.steps, p.base) && IsPlanOf(p.plan, p.v, p.base)
    requires IsHexDigest(p.v.manifest.sourceManifestId) && IsHexDigest(p.v.digest)
    requires j.baselineManifestDigest == p.base.manifestDigest && WellFormedDigests(p.fingerprint)
    requires StartBinding(j, p.plan) == Ok(p.execution)
    ensures Fits(p)
  {
    PlanStack(p.v, p.base);
    PlanSequence(p.v, p.base, p.plan);
    StartFields(j, p.plan);
    ApprovalIdHex(j);
  }

  lemma StartedReady(j: Journal, p: Setting)
    requires Valid(j) && j.phase.Approved? && HonestCodes(j.events) && StartBinding(j, p.plan) == Ok(p.execution)
    requires IsStack(p.Steps())
    ensures var started := Apply(j, ExecutionStarted(p.execution));
            started.Ok? && JournalReady(p, 0, Moment(started.value, p.base))
  {
    StartAccepted(j, p.plan);
    HonestContinuation(j, ExecutionStarted(p.execution));
  }

  /** A plan is compiled from a validated manifest, and the journal was approved for its
      target. Then the execution starts; and with every growth applied exactly, the run from
      the first permit over every verified boundary to completion gets through if and only
      if plan and target suit each other. It then ends in an accepted, completed record. */
  lemma PlanCompletes(j: Journal, v: Validated, base: Identity, plan: CommandPlan, loop: LoopEvidence,
                      fingerprint: Fingerprint, grownTo: U64)
    requires Valid(j) && j.phase.Approved? && HonestCodes(j.events)
    requires v.Bound() && Compilable(v.manifest.steps, base) && IsPlanOf(plan, v, base)
    requires IsHexDigest(v.manifest.sourceManifestId) && j.baselineManifestDigest == base.manifestDigest
    requires WellFormedDigests(fingerprint)
    ensures StartBinding(j, plan).Ok? && IsStack(Mutations(v.manifest.steps))
    ensures var p := Setting(v, base, plan, StartBinding(j, plan).value, loop, fingerprint, grownTo);
            var started := Apply(j, ExecutionStarted(p.execution));
            && started.Ok?
            && (Run(p, started.value).Some? <==> Suits(p))
            && (Run(p, started.value).Some? ==> Succeeds(p, Run(p, started.value)))
  {
    PlanStack(v, base);
    PlanSequence(v, base, plan);
    ApprovedStarts(j, plan);
    var p := Setting(v, base, plan, StartBinding(j, plan).value, loop, fingerprint, grownTo);
    StartFits(j, p);
    StartedReady(j, p);
    RunExact(p, Apply(j, ExecutionStarted(p.execution)).value);
  }
}
