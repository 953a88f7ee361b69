/** Freezing an approved plan into an execution intent and compiling it to a native
    manifest (crates/executor/src/execution_intent.rs, crates/executor/src/native_operation.rs). */
module ExecutionIntent {
  import opened Wrappers
  import opened Journals
  import opened Operations
  import opened DependencyGraph
  import opened TargetIdentity

  // ----- semantics of a step against the frozen identity -----

  datatype DecisionState = ReadyOnlineGrow | ReadyOfflineGrow | NotReady

  datatype GrowthDecision = GrowthDecision(
    target: string, device: Option<string>, mountpoint: Option<string>, fsType: Option<string>,
    state: DecisionState)

  datatype Mismatch =
    | BackupIdentity
    | PartitionPath
    | PartitionGrowthGeometry
    | PartitionNotUnique
    | PartitionGeometryChanged
    | PvValues
    | PvNotUnique
    | PvDoesNotGrow
    | LvValues
    | LvNotUnique
    | LvDoesNotGrow
    | FilesystemEmpty
    | FilesystemAbsent
    | DecisionMismatch
    | OnlineNotReady
    | MountNotUnique
    | OfflineNotExact

  function OnlyPartition(identity: Identity, partition: string): Option<Partition> {
    Only(identity.partitions, (p: Partition) => p.partition == partition)
  }

  function OnlyLvm(identity: Identity, kind: LvmKind, uuid: string): Option<LvmEntry> {
    Only(identity.lvm, (e: LvmEntry) => e.kind == kind && e.uuid == Some(uuid))
  }

  /** Mounts of a filesystem type at a mountpoint. */
  function MountsAt(identity: Identity, mountpoint: string, fsType: string): seq<Mount> {
    Filter(identity.mounts, (m: Mount) => m.target == mountpoint && m.fsType == Some(fsType))
  }

  function FilesystemMismatch(identity: Identity, decision: GrowthDecision, fsType: string,
                              mountpoint: Option<string>): Option<Mismatch>
  {
    if fsType == "" || mountpoint == Some("") then Some(FilesystemEmpty)
    else if identity.filesystem.None? then Some(FilesystemAbsent)
    else
      var filesystem := identity.filesystem.value;
      if decision.target != identity.target || filesystem.fsType != fsType
         || decision.device != Some(filesystem.device) || decision.fsType != Some(fsType)
         || decision.mountpoint != mountpoint then Some(DecisionMismatch)
      else
        match mountpoint
        case Some(at) =>
          if !decision.state.ReadyOnlineGrow? then Some(OnlineNotReady)
          else if |MountsAt(identity, at, fsType)| != 1 then Some(MountNotUnique)
          else None
        case None =>
          if fsType != "ext4" || !decision.state.ReadyOfflineGrow? || identity.mounts != [] then
            Some(OfflineNotExact)
          else None
  }

  function PartitionMismatch(identity: Identity, op: Operation): Option<Mismatch>
    requires op.ExtendPartition?
  {
    if !PlainText(op.partition) then Some(PartitionPath)
    else if (op.sectorSizeBytes != 512 && op.sectorSizeBytes != 4096)
            || op.newSizeSectors <= op.oldSizeSectors
            || op.oldSizeSectors * op.sectorSizeBytes >= U64_LIMIT
            || op.newSizeSectors * op.sectorSizeBytes >= U64_LIMIT
            || op.startSector + (op.newSizeSectors - 1) >= U64_LIMIT then Some(PartitionGrowthGeometry)
    else
      match OnlyPartition(identity, op.partition)
      case None => Some(PartitionNotUnique)
      case Some(entry) =>
        if entry.startSector != Some(op.startSector) || entry.sizeSectors != Some(op.oldSizeSectors)
           || entry.sectorSizeBytes != Some(op.sectorSizeBytes) then Some(PartitionGeometryChanged)
        else None
  }

  /** `validate_step_semantics`. */
  function StepMismatch(step: PlanStep, identity: Identity, decision: GrowthDecision): Option<Mismatch> {
    match step.operation
    case RevalidateSnapshot => None
    case RediscoverAndVerify => None
    case BackupLvmMetadata(vgUuid) =>
      if OnlyLvm(identity, VolumeGroup, vgUuid).Some? then None else Some(BackupIdentity)
    case BackupPartitionTable(disk, tableLabel, tableId) =>
      if exists p :: p in identity.partitions
                     && p.disk == Some(disk) && p.tableLabel == Some(tableLabel) && p.tableId == tableId
      then None else Some(BackupIdentity)
    case ExtendPartition(_, _, _, _, _) => PartitionMismatch(identity, step.operation)
    case ResizePhysicalVolume(pvUuid, expected) =>
      if pvUuid == "" || expected == 0 then Some(PvValues)
      else
        (match OnlyLvm(identity, PhysicalVolume, pvUuid)
         case None => Some(PvNotUnique)
         case Some(pv) => if expected <= pv.sizeBytes then Some(PvDoesNotGrow) else None)
    case ExtendLogicalVolume(lvUuid, additional, expected) =>
      if lvUuid == "" || additional == 0 || expected == 0 then Some(LvValues)
      else
        (match OnlyLvm(identity, LogicalVolume, lvUuid)
         case None => Some(LvNotUnique)
         case Some(lv) => if expected <= lv.sizeBytes then Some(LvDoesNotGrow) else None)
    case GrowFilesystem(fsType, mountpoint) => FilesystemMismatch(identity, decision, fsType, mountpoint)
  }

  // ----- freezing -----

  /** The role an operation plays; translation assigns it and native validation expects it. */
  function RoleOf(op: Operation): Role {
    match op
    case RevalidateSnapshot => PreExecutionEvidence
    case BackupLvmMetadata(_) => PreExecutionEvidence
    case BackupPartitionTable(_, _, _) => PreExecutionEvidence
    case RediscoverAndVerify => Verification
    case _ => MutationCandidate
  }

  /** `translate_step` followed by `compile_native_step`. */
  function Translate(step: PlanStep): IntentStep {
    IntentStep(step.id, step.dependsOn, step.reversibility, RoleOf(step.operation), step.operation)
  }

  function BarrierAfter(id: nat): Barrier {
    Barrier(id, true, true, true, true, true)
  }

  function NodesOf(steps: seq<IntentStep>): seq<Node> {
    seq(|steps|, i requires 0 <= i < |steps| => Node(steps[i].planStepId, steps[i].dependsOn))
  }

  function PlanNodes(steps: seq<PlanStep>): seq<Node> {
    seq(|steps|, i requires 0 <= i < |steps| => Node(steps[i].id, steps[i].dependsOn))
  }

  predicate IsMutation(step: IntentStep) {
    step.role.MutationCandidate?
  }

  /** IDs of the mutation steps, in manifest order. */
  function MutationIds(steps: seq<IntentStep>): seq<nat> {
    if steps == [] then []
    else
      var last := steps[|steps| - 1];
      MutationIds(steps[..|steps| - 1]) + (if IsMutation(last) then [last.planStepId] else [])
  }

  datatype Manifest = Manifest(sourceManifestId: Digest, steps: seq<IntentStep>, barriers: seq<Barrier>)

  datatype FreezeError = Graph(error: GraphError) | IdentityMismatch(stepId: nat, reason: Mismatch)

  predicate StepsAccepted(steps: seq<PlanStep>, identity: Identity, decision: GrowthDecision) {
    forall i :: 0 <= i < |steps| ==> StepMismatch(steps[i], identity, decision).None?
  }

  lemma AcceptedNext(steps: seq<PlanStep>, i: nat, identity: Identity, decision: GrowthDecision)
    requires i < |steps|
    ensures StepsAccepted(steps[..i + 1], identity, decision) <==>
            StepsAccepted(steps[..i], identity, decision) && StepMismatch(steps[i], identity, decision).None?
  {
    var longer := steps[..i + 1];
    assert longer == steps[..i] + [steps[i]];
  }

  lemma TranslateNext(steps: seq<PlanStep>, i: nat)
    requires i < |steps|
    ensures Map(steps[..i + 1], Translate) == Map(steps[..i], Translate) + [Translate(steps[i])]
  {
  }

  /** One more step brings its barrier, if it mutates. */
  lemma BarrierNext(steps: seq<IntentStep>, step: IntentStep)
    ensures Map(MutationIds(steps + [step]), BarrierAfter)
            == Map(MutationIds(steps), BarrierAfter)
               + (if IsMutation(step) then [BarrierAfter(step.planStepId)] else [])
  {
    assert (steps + [step])[..|steps|] == steps;
  }

  /** The loop of `freeze_execution_intent`: every step is checked and translated in order,
      and every mutation step gets one barrier, in the same order. */
  method FreezeSteps(steps: seq<PlanStep>, identity: Identity, decision: GrowthDecision)
    returns (r: Result<(seq<IntentStep>, seq<Barrier>), FreezeError>)
    ensures r.Ok? <==> StepsAccepted(steps, identity, decision)
    ensures r.Ok? ==>
              && r.value.0 == Map(steps, Translate)
              && r.value.1 == Map(MutationIds(r.value.0), BarrierAfter)
  {
    var frozen: seq<IntentStep> := [];
    var barriers: seq<Barrier> := [];
    var i := 0;
    while i < |steps|
      invariant 0 <= i <= |steps|
      invariant StepsAccepted(steps[..i], identity, decision)
      invariant frozen == Map(steps[..i], Translate)
      invariant barriers == Map(MutationIds(frozen), BarrierAfter)
    {
      AcceptedNext(steps, i, identity, decision);
      TranslateNext(steps, i);
      var step := steps[i];
      var mismatch := StepMismatch(step, identity, decision);
      if mismatch.Some? { return Err(FreezeError.IdentityMismatch(step.id, mismatch.value)); }
      var translated := Translate(step);
      BarrierNext(frozen, translated);
      if translated.role == MutationCandidate {
        barriers := barriers + [BarrierAfter(step.id)];
      }
      frozen := frozen + [translated];
      i := i + 1;
    }
    assert steps[..i] == steps;
    return Ok((frozen, barriers));
  }

  /** `freeze_execution_intent`: the graph check, then the loop. */
  method Freeze(steps: seq<PlanStep>, identity: Identity, decision: GrowthDecision, id: Digest)
    returns (r: Result<Manifest, FreezeError>)
    ensures r.Ok? <==> WellFormed(PlanNodes(steps)) && Acyclic(GraphOf(PlanNodes(steps)))
                       && StepsAccepted(steps, identity, decision)
    ensures r.Ok? ==>
              && r.value.sourceManifestId == id
              && r.value.steps == Map(steps, Translate)
              && r.value.barriers == Map(MutationIds(r.value.steps), BarrierAfter)
  {
    ghost var cycle;
    var graph;
    graph, cycle := ValidateDependencyGraph(PlanNodes(steps));
    if graph.Err? { return Err(FreezeError.Graph(graph.error)); }
    var frozen := FreezeSteps(steps, identity, decision);
    if frozen.Err? { return Err(frozen.error); }
    return Ok(Manifest(id, frozen.value.0, frozen.value.1));
  }
}
