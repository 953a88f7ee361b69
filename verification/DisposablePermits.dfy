/** Permits to run one command (crates/executor/src/disposable_permit.rs). */
module DisposablePermits {
  import opened Wrappers
  import opened Decimals
  import opened Journals
  import opened TargetIdentity
  import opened ExecutionIntent
  import opened DisposableArgv
  import opened ExecutionStarts

  datatype Permit = Permit(
    sourceManifestId: Digest,
    nativeManifestDigest: Digest,
    freshIdentityDigest: Digest,
    executionId: Digest,
    loopDevice: string,
    command: Command)

  /** A verified step together with the one that may follow it. */
  datatype VerifiedBoundary = VerifiedBoundary(
    executionId: Digest, completedStepId: nat, nextStepId: nat, freshIdentityDigest: Digest)

  datatype PermitError =
    | OwnershipLost
    | FreshIdentityBindingMismatch
    | AssociationOwnershipMismatch
    | TargetNotOwnedByLoop
    | ExecutionBindingMismatch
    | ExecutionBindingBroken
    | ExecutionStepNotNext(id: nat)
    | VerifiedBoundaryMismatch
    | VerifiedCommand(error: ArgvError)
    | CommandStepNotUnique(id: nat)

  /** A loop device with the file behind it. */
  datatype Loop = Loop(device: string, backingFile: string)

  /** What the binders are told about the loop device: the proof of ownership, whether it
      still holds on the file system, and the association read from the kernel. */
  datatype LoopEvidence = LoopEvidence(owned: Loop, holds: bool, association: Loop)

  // ----- ownership -----

  /** `belongs_to_loop`. */
  predicate BelongsToLoop(path: string, loop: string) {
    path == loop
    || (loop + "p" <= path && |path| > |loop| + 1 && AllDigits(path[|loop| + 1..]))
  }

  function LoopPath(n: nat): string {
    "/dev/loop" + Decimal(n)
  }

  /** No path belongs to two loop devices. */
  lemma LoopsDisjoint(path: string, m: nat, n: nat)
    requires BelongsToLoop(path, LoopPath(m)) && BelongsToLoop(path, LoopPath(n))
    requires |LoopPath(m)| <= |LoopPath(n)|
    ensures m == n
  {
    var a, b := LoopPath(m), LoopPath(n);
    assert a[9..] == Decimal(m) && b[9..] == Decimal(n);
    assert a <= path && b <= path;
    assert forall i :: 9 <= i < |b| ==> IsDigit(b[i]) && b[i] == path[i];
    assert |path| > |a| ==> path[|a|] == 'p';
    assert |a| == |b|;
    assert a == path[..|a|] == b;
    DecimalInjective(m, n);
  }

  predicate IsPv(e: LvmEntry) {
    e.kind.PhysicalVolume?
  }

  /** `verify_target_owned_by_loop`. */
  predicate OwnedByLoop(identity: Identity, loop: string) {
    && (exists d :: d in identity.devices && d.path == loop)
    && (forall d :: d in identity.devices && "/dev/loop" <= d.path ==> BelongsToLoop(d.path, loop))
    && var pv := Only(identity.lvm, IsPv);
       pv.Some? && BelongsToLoop(pv.value.name, loop)
  }

  /** A target is owned by at most one loop device. */
  lemma OneOwner(identity: Identity, m: nat, n: nat)
    requires OwnedByLoop(identity, LoopPath(m)) && OwnedByLoop(identity, LoopPath(n))
    ensures m == n
  {
    var pv := Only(identity.lvm, IsPv).value;
    if |LoopPath(m)| <= |LoopPath(n)| {
      LoopsDisjoint(pv.name, m, n);
    } else {
      LoopsDisjoint(pv.name, n, m);
    }
  }

  /** And no device of another loop device is in its chain. */
  lemma NoForeignLoop(identity: Identity, m: nat, d: Device, n: nat)
    requires OwnedByLoop(identity, LoopPath(m)) && d in identity.devices && BelongsToLoop(d.path, LoopPath(n))
    ensures m == n
  {
    assert "/dev/loop" <= LoopPath(n) && LoopPath(n) <= d.path;
    assert "/dev/loop" <= d.path;
    if |LoopPath(m)| <= |LoopPath(n)| {
      LoopsDisjoint(d.path, m, n);
    } else {
      LoopsDisjoint(d.path, n, m);
    }
  }

  // ----- the binders -----

  function CommandsOf(plan: CommandPlan, id: nat): seq<Command> {
    Filter(plan.commands, (c: Command) => c.planStepId == id)
  }

  /** `bind_disposable_execution_permit`. */
  function BindFirst(plan: CommandPlan, identity: Identity, loop: LoopEvidence, execution: ExecutionBinding,
                     id: nat): Result<Permit, PermitError>
  {
    if !loop.holds then Err(OwnershipLost)
    else if plan.freshIdentityDigest != identity.manifestDigest then Err(FreshIdentityBindingMismatch)
    else if loop.association != loop.owned then Err(AssociationOwnershipMismatch)
    else if !OwnedByLoop(identity, loop.owned.device) then Err(TargetNotOwnedByLoop)
    else if execution.schemaVersion != 1 || !execution.IntegrityMatches() then Err(ExecutionBindingBroken)
    else if execution.sourceManifestId != plan.sourceManifestId
            || execution.nativeManifestDigest != plan.nativeManifestDigest
            || execution.freshIdentityDigest != plan.freshIdentityDigest then Err(ExecutionBindingMismatch)
    else if |execution.mutationStepIds| == 0 || execution.mutationStepIds[0] != id then
      Err(ExecutionStepNotNext(id))
    else
      var commands := CommandsOf(plan, id);
      if |commands| != 1 then Err(CommandStepNotUnique(id))
      else
        Ok(Permit(plan.sourceManifestId, plan.nativeManifestDigest, plan.freshIdentityDigest,
                  execution.executionId, loop.owned.device, commands[0]))
  }

  /** `bind_verified_disposable_execution_permit`. */
  function BindNext(v: Validated, identity: Identity, loop: LoopEvidence, execution: ExecutionBinding,
                    boundary: VerifiedBoundary): Result<Permit, PermitError>
  {
    if !loop.holds then Err(OwnershipLost)
    else if loop.association != loop.owned then Err(AssociationOwnershipMismatch)
    else if !OwnedByLoop(identity, loop.owned.device) then Err(TargetNotOwnedByLoop)
    else if execution.schemaVersion != 1 || !execution.IntegrityMatches() then Err(ExecutionBindingBroken)
    else if execution.sourceManifestId != v.manifest.sourceManifestId
            || execution.nativeManifestDigest != v.digest then Err(ExecutionBindingMismatch)
    else if boundary.executionId != execution.executionId
            || boundary.freshIdentityDigest != identity.manifestDigest
            || !Consecutive(execution.mutationStepIds, boundary.completedStepId, boundary.nextStepId) then
      Err(VerifiedBoundaryMismatch)
    else
      var plan := CompileNext(v, identity, boundary.nextStepId);
      if plan.Err? then Err(VerifiedCommand(plan.error))
      else if |plan.value.commands| != 1 || plan.value.commands[0].planStepId != boundary.nextStepId then
        Err(CommandStepNotUnique(boundary.nextStepId))
      else
        Ok(Permit(plan.value.sourceManifestId, plan.value.nativeManifestDigest, plan.value.freshIdentityDigest,
                  execution.executionId, loop.owned.device, plan.value.commands[0]))
  }

  // ----- order -----

  /** With distinct IDs, looking up the first command's step finds that command alone. */
  lemma {:induction false} OneCommand(commands: seq<Command>, i: nat)
    requires i < |commands|
    requires forall a, b :: 0 <= a < b < |commands| ==> commands[a].planStepId != commands[b].planStepId
    ensures Filter(commands, (c: Command) => c.planStepId == commands[i].planStepId) == [commands[i]]
  {
    var n := |commands| - 1;
    var id := commands[i].planStepId;
    if i == n {
      NoCommand(commands[..n], id);
    } else {
      OneCommand(commands[..n], i);
    }
  }

  lemma {:induction false} NoCommand(commands: seq<Command>, id: nat)
    requires forall a :: 0 <= a < |commands| ==> commands[a].planStepId != id
    ensures Filter(commands, (c: Command) => c.planStepId == id) == []
  {
    if commands != [] {
      NoCommand(commands[..|commands| - 1], id);
    }
  }

  /** The first permit carries command 0. */
  lemma FirstPermit(plan: CommandPlan, identity: Identity, loop: LoopEvidence, execution: ExecutionBinding, id: nat)
    requires BindFirst(plan, identity, loop, execution, id).Ok?
    requires execution.mutationStepIds == Map(plan.commands, (c: Command) => c.planStepId)
    requires Distinct(execution.mutationStepIds)
    ensures |plan.commands| > 0
    ensures BindFirst(plan, identity, loop, execution, id).value.command == plan.commands[0]
    ensures id == plan.commands[0].planStepId
  {
    OneCommand(plan.commands, 0);
  }

  lemma NextPermitFacts(v: Validated, identity: Identity, loop: LoopEvidence, execution: ExecutionBinding,
                        boundary: VerifiedBoundary)
    requires BindNext(v, identity, loop, execution, boundary).Ok?
    ensures var permit, plan := BindNext(v, identity, loop, execution, boundary).value,
                                CompileNext(v, identity, boundary.nextStepId);
            && plan.Ok? && plan.value.commands == [permit.command]
            && permit.command.planStepId == boundary.nextStepId
            && Consecutive(execution.mutationStepIds, boundary.completedStepId, boundary.nextStepId)
  {
  }

  /** A continuation permit carries the step right after the completed one, in the durable
      list and in the manifest, and that step declares a dependency on it. */
  lemma NextPermit(v: Validated, identity: Identity, loop: LoopEvidence, execution: ExecutionBinding,
                   boundary: VerifiedBoundary) returns (i: nat)
    requires BindNext(v, identity, loop, execution, boundary).Ok?
    requires execution.mutationStepIds == MutationIds(v.manifest.steps) && Distinct(execution.mutationStepIds)
    ensures var steps, ids := Mutations(v.manifest.steps), execution.mutationStepIds;
            var permit := BindNext(v, identity, loop, execution, boundary).value;
            && 0 < i < |ids| == |steps|
            && ids[i - 1] == steps[i - 1].planStepId == boundary.completedStepId
            && ids[i] == steps[i].planStepId == boundary.nextStepId == permit.command.planStepId
            && boundary.completedStepId in steps[i].dependsOn
            && CompileNextStep(steps[i], identity) == Ok(permit.command)
  {
    NextPermitFacts(v, identity, loop, execution, boundary);
    i := PairPosition(v, boundary.completedStepId, boundary.nextStepId);
    ContinuationExact(v, identity, i);
  }

  /** Where a pair of adjacent mutation IDs stands among the mutation steps. */
  lemma PairPosition(v: Validated, first: nat, second: nat) returns (i: nat)
    requires Consecutive(MutationIds(v.manifest.steps), first, second)
    ensures var steps, ids := Mutations(v.manifest.steps), MutationIds(v.manifest.steps);
            && 0 < i < |ids| == |steps|
            && ids[i - 1] == steps[i - 1].planStepId == first && ids[i] == steps[i].planStepId == second
  {
    var steps, ids := Mutations(v.manifest.steps), MutationIds(v.manifest.steps);
    MutationIdsOfMutations(v.manifest.steps);
    var k :| 0 <= k < |ids| - 1 && PairAt(ids, k, first, second);
    i := k + 1;
    assert ids[i] == steps[i].planStepId && ids[k] == steps[k].planStepId;
  }

  // ----- whole runs -----

  /** One continuation: the boundary that followed a permit, and what the binder was given. */
  datatype Continuation = Continuation(identity: Identity, loop: LoopEvidence, boundary: VerifiedBoundary)

  predicate Follows(v: Validated, execution: ExecutionBinding, earlier: Permit, c: Continuation, later: Permit) {
    && BindNext(v, c.identity, c.loop, execution, c.boundary) == Ok(later)
    && c.boundary.completedStepId == earlier.command.planStepId
  }

  /** A run of permits: the first is bound to the plan, and each later one to a boundary that
      completed the step of the one before. */
  predicate IsPermitRun(v: Validated, execution: ExecutionBinding, permits: seq<Permit>, between: seq<Continuation>) {
    && |permits| == |between| + 1
    && |execution.mutationStepIds| > 0 && permits[0].command.planStepId == execution.mutationStepIds[0]
    && forall k :: 0 <= k < |between| ==> Follows(v, execution, permits[k], between[k], permits[k + 1])
  }

  /** Every run of permits carries the mutation steps of the manifest in order, without
      skipping or repeating one, and so is at most as long as the manifest's list. */
  lemma {:induction false} PermitsInOrder(v: Validated, execution: ExecutionBinding, permits: seq<Permit>,
                                          between: seq<Continuation>, k: nat)
    requires IsPermitRun(v, execution, permits, between) && k < |permits|
    requires execution.mutationStepIds == MutationIds(v.manifest.steps) && Distinct(execution.mutationStepIds)
    ensures k < |execution.mutationStepIds| && permits[k].command.planStepId == execution.mutationStepIds[k]
  {
    if k > 0 {
      PermitsInOrder(v, execution, permits, between, k - 1);
      var c := between[k - 1];
      assert Follows(v, execution, permits[k - 1], c, permits[k]);
      var i := NextPermit(v, c.identity, c.loop, execution, c.boundary);
      assert execution.mutationStepIds[i - 1] == execution.mutationStepIds[k - 1];
    }
  }

  /** From the plan to the last permit. A plan is compiled from a validated manifest, the
      execution bound to it, the first permit bound to the plan and every later one to a
      boundary verified against whatever manifest matches the execution by digest: then the
      permits carry the plan's mutation steps in manifest order from the first on. */
  lemma PermitsOfPlan(j: Journal, plan: CommandPlan, compiled: Validated, identity: Identity, v: Validated,
                      loop: LoopEvidence, id: nat, permits: seq<Permit>, between: seq<Continuation>, k: nat)
    requires StartBinding(j, plan).Ok? && IsPlanOf(plan, compiled, identity) && compiled.Bound() && v.Bound()
    requires var execution := StartBinding(j, plan).value;
             && execution.nativeManifestDigest == v.digest
             && |permits| == |between| + 1
             && BindFirst(plan, identity, loop, execution, id) == Ok(permits[0])
             && forall i :: 0 <= i < |between| ==> Follows(v, execution, permits[i], between[i], permits[i + 1])
    requires k < |permits|
    ensures permits[0].command == plan.commands[0]
    ensures k < |Mutations(compiled.manifest.steps)|
            && permits[k].command.planStepId == Mutations(compiled.manifest.steps)[k].planStepId
  {
    var execution := StartBinding(j, plan).value;
    StartFields(j, plan);
    DurableList(j, plan, compiled, identity, v);
    FirstPermit(plan, identity, loop, execution, id);
    assert execution.mutationStepIds[0] == plan.commands[0].planStepId;
    assert IsPermitRun(v, execution, permits, between);
    PermitsInOrder(v, execution, permits, between, k);
    MutationIdsOfMutations(v.manifest.steps);
  }
}
