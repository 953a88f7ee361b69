/** Checking fresh state against an executed step
    (crates/executor/src/disposable_verify.rs, `verify_boundary_state` and
    `verify_terminal_filesystem_state`). */
module BoundaryChecks {
  import opened Wrappers
  import opened Operations
  import opened Journals
  import opened DependencyGraph
  import opened TargetIdentity
  import opened ExecutionIntent
  import opened NativeManifests
  import opened DisposableArgv

  datatype VerifyError =
    | DurableVerificationStateRequired
    | ExecutionBindingInvalid
    | ManifestBindingMismatch
    | CompletedStepNotAuthorized
    | NoNextMutationStep
    | UnsupportedCompletedMutation
    | PartitionIdentityNotUnique
    | PartitionGeometryMismatch
    | PartitionDeviceSizeMismatch
    | PhysicalVolumeIdentityNotUnique
    | PhysicalVolumeSizeMismatch
    | UnsupportedFreshRoute
    | LogicalVolumeIdentityNotUnique
    | LogicalVolumeSizeMismatch
    | FilesystemBackingSizeMismatch
    | FinalStepNotLast
    | UnsupportedFinalMutation
    | FilesystemIdentityMismatch
    | CapabilityInventoryMismatch
    | FilesystemSizeDidNotGrow
    | VerifiedBoundaryMissing
    | VerifiedBoundaryIdentityMismatch
    | PersistenceFailed

  // ----- what each operation must have done -----

  function DevicesAt(identity: Identity, path: string): seq<Device> {
    Filter(identity.devices, (d: Device) => d.path == path)
  }

  function PartitionEffect(op: Operation, baseline: Identity, current: Identity): Option<VerifyError>
    requires op.ExtendPartition?
  {
    var before, after := OnlyPartition(baseline, op.partition), OnlyPartition(current, op.partition);
    if before.None? || after.None? then Some(VerifyError.PartitionIdentityNotUnique)
    else
      var p, q := before.value, after.value;
      if p.startSector != Some(op.startSector) || p.sizeSectors != Some(op.oldSizeSectors)
         || p.sectorSizeBytes != Some(op.sectorSizeBytes)
         || q.startSector != Some(op.startSector) || q.sizeSectors != Some(op.newSizeSectors)
         || q.sectorSizeBytes != Some(op.sectorSizeBytes)
         || p.disk != q.disk || p.tableLabel != q.tableLabel || p.tableId != q.tableId
         || p.recordUuid != q.recordUuid then Some(VerifyError.PartitionGeometryMismatch)
      else
        var bytes, devices := op.newSizeSectors * op.sectorSizeBytes, DevicesAt(current, op.partition);
        if bytes >= U64_LIMIT || |devices| != 1 || devices[0].sizeBytes != bytes then
          Some(PartitionDeviceSizeMismatch)
        else None
  }

  function PvEffect(uuid: string, expected: U64, current: Identity): Option<VerifyError> {
    var pv := OnlyLvm(current, PhysicalVolume, uuid);
    if pv.None? then Some(VerifyError.PhysicalVolumeIdentityNotUnique)
    else if pv.value.sizeBytes != expected then Some(PhysicalVolumeSizeMismatch)
    else None
  }

  predicate IsOfflineGrow(step: IntentStep) {
    step.operation.GrowFilesystem? && step.operation.mountpoint.None? && step.operation.fsType == "ext4"
  }

  predicate OfflineExt4(m: Manifest) {
    exists step :: step in m.steps && IsOfflineGrow(step)
  }

  function LvEffect(uuid: string, expected: U64, m: Manifest, current: Identity): Option<VerifyError> {
    var lv := OnlyLvm(current, LogicalVolume, uuid);
    if lv.None? then Some(VerifyError.LogicalVolumeIdentityNotUnique)
    else if lv.value.sizeBytes != expected then Some(LogicalVolumeSizeMismatch)
    else if current.filesystem.None? || current.filesystem.value.backingSizeBytes != expected
            || (OfflineExt4(m) && current.mounts != []) then Some(FilesystemBackingSizeMismatch)
    else None
  }

  function StepEffect(op: Operation, m: Manifest, baseline: Identity, current: Identity): Option<VerifyError> {
    match op
    case ExtendPartition(_, _, _, _, _) => PartitionEffect(op, baseline, current)
    case ResizePhysicalVolume(uuid, expected) => PvEffect(uuid, expected, current)
    case ExtendLogicalVolume(uuid, _, expected) => LvEffect(uuid, expected, m, current)
    case _ => Some(UnsupportedCompletedMutation)
  }

  // ----- the boundary -----

  function StepById(m: Manifest, id: nat): Option<IntentStep> {
    Find(m.steps, (s: IntentStep) => s.planStepId == id)
  }

  function BindingProblem(execution: ExecutionBinding, v: Validated): Option<VerifyError> {
    if execution.schemaVersion != 1 || !execution.IntegrityMatches() then Some(ExecutionBindingInvalid)
    else if execution.sourceManifestId != v.manifest.sourceManifestId
            || execution.nativeManifestDigest != v.digest then Some(ManifestBindingMismatch)
    else None
  }

  /** The durable step after the completed one, if the completed step is authorized. */
  function NextStep(ids: seq<nat>, completed: nat): Result<nat, VerifyError> {
    var position := FirstIndex(ids, completed);
    if position.None? then Err(CompletedStepNotAuthorized)
    else if position.value + 1 >= |ids| then Err(NoNextMutationStep)
    else Ok(ids[position.value + 1])
  }

  /** `verify_boundary_state`: the next step and the digest of the fresh identity. */
  function BoundaryState(execution: ExecutionBinding, v: Validated, baseline: Identity, current: Identity,
                         completed: nat): Result<(nat, Digest), VerifyError>
  {
    var problem := BindingProblem(execution, v);
    if problem.Some? then Err(problem.value)
    else
      var next, step := NextStep(execution.mutationStepIds, completed), StepById(v.manifest, completed);
      if next.Err? then Err(next.error)
      else if step.None? then Err(CompletedStepNotAuthorized)
      else if !current.routeStatus.SupportedProfile? then Err(UnsupportedFreshRoute)
      else
        var defect := StepEffect(step.value.operation, v.manifest, baseline, current);
        if defect.Some? then Err(defect.value) else Ok((next.value, current.manifestDigest))
  }

  // ----- the last step -----

  predicate MountsMatch(fsType: string, mountpoint: Option<string>, before: Identity, current: Identity) {
    match mountpoint
    case Some(at) =>
      var older, newer := MountsAt(before, at, fsType), MountsAt(current, at, fsType);
      |older| == 1 && |newer| == 1 && older[0].source.Some? && older[0] == newer[0]
    case None => fsType == "ext4" && before.mounts == [] && current.mounts == []
  }

  predicate SameFilesystem(fsType: string, mountpoint: Option<string>, before: Identity, current: Identity)
    requires before.filesystem.Some? && current.filesystem.Some?
  {
    var older, newer := before.filesystem.value, current.filesystem.value;
    && before.target == current.target && before.resolvedDevice == current.resolvedDevice
    && older.device == before.resolvedDevice && newer.device == current.resolvedDevice
    && older.device == newer.device
    && older.fsType == fsType && newer.fsType == fsType && older.fsVersion == newer.fsVersion
    && older.uuid.Some? && older.uuid == newer.uuid
    && older.backingSizeBytes == newer.backingSizeBytes
    && MountsMatch(fsType, mountpoint, before, current)
  }

  predicate Grew(older: Filesystem, newer: Filesystem) {
    && older.observedSizeBytes.Some? && newer.observedSizeBytes.Some?
    && older.observedSizeBytes.value != 0
    && older.observedSizeBytes.value < older.backingSizeBytes
    && older.observedSizeBytes.value < newer.observedSizeBytes.value <= newer.backingSizeBytes
  }

  function GrowthEffect(op: Operation, before: Identity, current: Identity): Option<VerifyError>
    requires op.GrowFilesystem?
  {
    if !before.routeStatus.SupportedProfile? || !current.routeStatus.SupportedProfile? then
      Some(UnsupportedFreshRoute)
    else if before.filesystem.None? || current.filesystem.None? then Some(VerifyError.FilesystemIdentityMismatch)
    else if !SameFilesystem(op.fsType, op.mountpoint, before, current) then Some(VerifyError.FilesystemIdentityMismatch)
    else if !Grew(before.filesystem.value, current.filesystem.value) then Some(FilesystemSizeDidNotGrow)
    else None
  }

  /** `verify_terminal_filesystem_state`: the step before last is checked again, against
      the identity that authorized the growth. */
  function TerminalState(execution: ExecutionBinding, v: Validated, before: Identity, current: Identity,
                         completed: nat): Result<Digest, VerifyError>
  {
    var problem, ids := BindingProblem(execution, v), execution.mutationStepIds;
    if problem.Some? then Err(problem.value)
    else if |ids| == 0 || ids[|ids| - 1] != completed then Err(FinalStepNotLast)
    else
      var step := StepById(v.manifest, completed);
      if step.None? then Err(CompletedStepNotAuthorized)
      else if !step.value.operation.GrowFilesystem? || |ids| < 2 then Err(UnsupportedFinalMutation)
      else
        var boundary := BoundaryState(execution, v, before, current, ids[|ids| - 2]);
        if boundary.Err? then Err(boundary.error)
        else if boundary.value.0 != completed then Err(FinalStepNotLast)
        else
          var defect := GrowthEffect(step.value.operation, before, current);
          if defect.Some? then Err(defect.value) else Ok(current.manifestDigest)
  }

  // ----- what the checks establish -----

  /** Accepted steps are adjacent in the durable list, in this order. */
  lemma BoundaryIsOrdered(execution: ExecutionBinding, v: Validated, baseline: Identity, current: Identity,
                          completed: nat)
    requires BoundaryState(execution, v, baseline, current, completed).Ok?
    ensures Consecutive(execution.mutationStepIds, completed,
                        BoundaryState(execution, v, baseline, current, completed).value.0)
    ensures BoundaryState(execution, v, baseline, current, completed).value.1 == current.manifestDigest
    ensures current.routeStatus.SupportedProfile?
  {
    var ids := execution.mutationStepIds;
    var i := FirstIndex(ids, completed).value;
    assert PairAt(ids, i, completed, ids[i + 1]);
  }

  /** With distinct step IDs the step after the completed one is the only candidate. */
  lemma NextStepExact(ids: seq<nat>, i: nat)
    requires Distinct(ids) && i < |ids|
    ensures NextStep(ids, ids[i]) == if i + 1 < |ids| then Ok(ids[i + 1]) else Err(NoNextMutationStep)
  {
    var found := FirstIndex(ids, ids[i]);
    assert found.Some? && found.value <= i;
  }

  /** In a manifest with distinct IDs every mutation step is found by its ID. */
  lemma MutationById(m: Manifest, i: nat)
    requires forall a, b :: 0 <= a < b < |m.steps| ==> m.steps[a].planStepId != m.steps[b].planStepId
    requires i < |Mutations(m.steps)|
    ensures StepById(m, Mutations(m.steps)[i].planStepId) == Some(Mutations(m.steps)[i])
  {
    var step := Mutations(m.steps)[i];
    assert step in Mutations(m.steps);
    var k :| 0 <= k < |m.steps| && m.steps[k] == step;
    FindsStep(m.steps, k);
  }

  /** The boundary check is exact: for the binding of a manifest, it accepts the step at a
      position if and only if another step follows, the route is supported and the step's
      effect is there; the answer is the step right after it. */
  lemma BoundaryExact(execution: ExecutionBinding, v: Validated, baseline: Identity, current: Identity, i: nat)
    requires BindingProblem(execution, v).None? && DistinctIds(NodesOf(v.manifest.steps))
    requires execution.mutationStepIds == MutationIds(v.manifest.steps) && i < |Mutations(v.manifest.steps)|
    ensures var steps := Mutations(v.manifest.steps);
            var r := BoundaryState(execution, v, baseline, current, steps[i].planStepId);
            && (r.Ok? <==> i + 1 < |steps| && current.routeStatus.SupportedProfile?
                           && StepEffect(steps[i].operation, v.manifest, baseline, current).None?)
            && (r.Ok? ==> r.value == (steps[i + 1].planStepId, current.manifestDigest))
  {
    var steps, ids := Mutations(v.manifest.steps), MutationIds(v.manifest.steps);
    StepIdsDistinct(v.manifest.steps);
    MutationIdsDistinct(v.manifest.steps);
    MutationIdsOfMutations(v.manifest.steps);
    assert ids[i] == steps[i].planStepId;
    assert i + 1 < |steps| ==> ids[i + 1] == steps[i + 1].planStepId;
    NextStepExact(ids, i);
    MutationById(v.manifest, i);
  }

  /** An accepted completion is an accepted boundary of the step before last, with the
      filesystem's own growth. */
  lemma TerminalParts(execution: ExecutionBinding, v: Validated, before: Identity, current: Identity, completed: nat)
    requires TerminalState(execution, v, before, current, completed).Ok?
    ensures var ids, step := execution.mutationStepIds, StepById(v.manifest, completed);
            && |ids| >= 2 && ids[|ids| - 1] == completed
            && BoundaryState(execution, v, before, current, ids[|ids| - 2]).Ok?
            && step.Some? && step.value.operation.GrowFilesystem?
            && GrowthEffect(step.value.operation, before, current).None?
  {
  }

  /** The effect that an accepted boundary saw. */
  lemma BoundaryEffect(execution: ExecutionBinding, v: Validated, baseline: Identity, current: Identity, completed: nat)
    requires BoundaryState(execution, v, baseline, current, completed).Ok?
    ensures var step := StepById(v.manifest, completed);
            step.Some? && StepEffect(step.value.operation, v.manifest, baseline, current).None?
  {
  }

  /** The terminal size chain. When the step before the last grew a logical volume, an
      accepted completion means: the old filesystem size was positive, the new one is
      larger, it fits the backing device, and that is exactly as large as the volume was
      meant to become; device, UUID and type are those that authorized the growth. */
  lemma TerminalSizeChain(execution: ExecutionBinding, v: Validated, before: Identity, current: Identity,
                          completed: nat)
    requires TerminalState(execution, v, before, current, completed).Ok?
    requires var ids := execution.mutationStepIds;
             |ids| >= 2 && StepById(v.manifest, ids[|ids| - 2]).Some?
             && StepById(v.manifest, ids[|ids| - 2]).value.operation.ExtendLogicalVolume?
    ensures before.filesystem.Some? && current.filesystem.Some?
    ensures var ids, older, newer := execution.mutationStepIds, before.filesystem.value, current.filesystem.value;
            var expected := StepById(v.manifest, ids[|ids| - 2]).value.operation.expectedLvSizeBytes;
            && older.observedSizeBytes.Some? && newer.observedSizeBytes.Some?
            && 0 < older.observedSizeBytes.value < newer.observedSizeBytes.value
               <= newer.backingSizeBytes == older.backingSizeBytes == expected
            && older.device == newer.device == current.resolvedDevice
            && older.uuid.Some? && older.uuid == newer.uuid && older.fsType == newer.fsType
    ensures var ids := execution.mutationStepIds; Consecutive(ids, ids[|ids| - 2], completed)
  {
    var ids := execution.mutationStepIds;
    TerminalParts(execution, v, before, current, completed);
    BoundaryEffect(execution, v, before, current, ids[|ids| - 2]);
    assert PairAt(ids, |ids| - 2, ids[|ids| - 2], completed);
  }

  /** An accepted completion of a mounted growth saw one mount of the filesystem before and
      after, from the same source. */
  lemma TerminalSameMount(execution: ExecutionBinding, v: Validated, before: Identity, current: Identity,
                          completed: nat)
    requires TerminalState(execution, v, before, current, completed).Ok?
    ensures StepById(v.manifest, completed).Some? && StepById(v.manifest, completed).value.operation.GrowFilesystem?
    ensures var op := StepById(v.manifest, completed).value.operation;
            if op.mountpoint.Some? then
              exists mount :: MountsAt(before, op.mountpoint.value, op.fsType) == [mount]
                              == MountsAt(current, op.mountpoint.value, op.fsType) && mount.source.Some?
            else before.mounts == [] && current.mounts == []
  {
    TerminalParts(execution, v, before, current, completed);
    var op := StepById(v.manifest, completed).value.operation;
    if op.mountpoint.Some? {
      var older := MountsAt(before, op.mountpoint.value, op.fsType);
      assert older == [older[0]];
    }
  }

  // ----- the compiler and the verifier agree -----

  /** A partition growth applied exactly. */
  function GrowEntry(op: Operation, p: Partition): Partition
    requires op.ExtendPartition?
  {
    if p.partition == op.partition then p.(sizeSectors := Some(op.newSizeSectors)) else p
  }

  function GrowDevice(path: string, bytes: U64, d: Device): Device {
    if d.path == path then d.(sizeBytes := bytes) else d
  }

  function AfterPartition(op: Operation, identity: Identity, digest: Digest): Identity
    requires op.ExtendPartition? && op.newSizeSectors * op.sectorSizeBytes < U64_LIMIT
  {
    identity.(
      manifestDigest := digest,
      partitions := Map(identity.partitions, (p: Partition) => GrowEntry(op, p)),
      devices := Map(identity.devices,
                     (d: Device) => GrowDevice(op.partition, op.newSizeSectors * op.sectorSizeBytes, d)))
  }

  lemma GrownEntry(op: Operation, identity: Identity)
    requires op.ExtendPartition? && OnlyPartition(identity, op.partition).Some?
    ensures Only(Map(identity.partitions, (p: Partition) => GrowEntry(op, p)),
                 (p: Partition) => p.partition == op.partition)
            == Some(GrowEntry(op, OnlyPartition(identity, op.partition).value))
  {
    OnlyMap(identity.partitions, (p: Partition) => GrowEntry(op, p), (p: Partition) => p.partition == op.partition);
  }

  lemma GrownDevice(devices: seq<Device>, path: string, bytes: U64)
    ensures var grown := Map(devices, (d: Device) => GrowDevice(path, bytes, d));
            var matches := Filter(grown, (d: Device) => d.path == path);
            && |matches| == |Filter(devices, (d: Device) => d.path == path)|
            && forall i :: 0 <= i < |matches| ==> matches[i].sizeBytes == bytes
  {
    var grow, at := (d: Device) => GrowDevice(path, bytes, d), (d: Device) => d.path == path;
    FilterMap(devices, grow, at);
    var before := Filter(devices, at);
    forall i | 0 <= i < |before| ensures Map(before, grow)[i].sizeBytes == bytes {
      assert before[i] in before;
    }
  }

  /** A growth the compiler accepted, applied exactly, is what the verifier accepts, if and
      only if the identity lists the partition's device node once. The checked product never
      overflows. */
  lemma PartitionAgreement(id: nat, op: Operation, identity: Identity, digest: Digest)
    requires op.ExtendPartition? && CompilePartition(id, op, identity).Ok?
    ensures op.newSizeSectors * op.sectorSizeBytes < U64_LIMIT
    ensures PartitionEffect(op, identity, AfterPartition(op, identity, digest)).None? <==>
            |DevicesAt(identity, op.partition)| == 1
  {
    PartitionFits(id, op, identity);
    PartitionGeometryKnown(id, op, identity);
    GrowthSeen(op, identity, digest);
  }

  lemma GrowthSeen(op: Operation, identity: Identity, digest: Digest)
    requires op.ExtendPartition? && op.newSizeSectors * op.sectorSizeBytes < U64_LIMIT
    requires OnlyPartition(identity, op.partition).Some?
    requires var p := OnlyPartition(identity, op.partition).value;
             && p.partition == op.partition
             && p.startSector == Some(op.startSector) && p.sizeSectors == Some(op.oldSizeSectors)
             && p.sectorSizeBytes == Some(op.sectorSizeBytes)
    ensures PartitionEffect(op, identity, AfterPartition(op, identity, digest)).None? <==>
            |DevicesAt(identity, op.partition)| == 1
  {
    GrownEntry(op, identity);
    GrownDevice(identity.devices, op.partition, op.newSizeSectors * op.sectorSizeBytes);
    EffectSeen(op, identity, AfterPartition(op, identity, digest));
  }

  lemma EffectSeen(op: Operation, before: Identity, after: Identity)
    requires op.ExtendPartition? && op.newSizeSectors * op.sectorSizeBytes < U64_LIMIT
    requires OnlyPartition(before, op.partition).Some?
    requires var p := OnlyPartition(before, op.partition).value;
             && p.startSector == Some(op.startSector) && p.sizeSectors == Some(op.oldSizeSectors)
             && p.sectorSizeBytes == Some(op.sectorSizeBytes)
             && OnlyPartition(after, op.partition) == Some(p.(sizeSectors := Some(op.newSizeSectors)))
    requires forall i :: 0 <= i < |DevicesAt(after, op.partition)| ==>
               DevicesAt(after, op.partition)[i].sizeBytes == op.newSizeSectors * op.sectorSizeBytes
    ensures PartitionEffect(op, before, after).None? <==> |DevicesAt(after, op.partition)| == 1
  {
  }

  lemma PartitionGeometryKnown(id: nat, op: Operation, identity: Identity)
    requires op.ExtendPartition? && CompilePartition(id, op, identity).Ok?
    ensures OnlyPartition(identity, op.partition).Some?
    ensures var p := OnlyPartition(identity, op.partition).value;
            && p.partition == op.partition
            && p.startSector == Some(op.startSector) && p.sizeSectors == Some(op.oldSizeSectors)
            && p.sectorSizeBytes == Some(op.sectorSizeBytes)
  {
  }

  /** A volume growth applied exactly. */
  function ResizeEntry(kind: LvmKind, uuid: string, size: U64, e: LvmEntry): LvmEntry {
    if e.kind == kind && e.uuid == Some(uuid) then e.(sizeBytes := size) else e
  }

  function AfterVolume(kind: LvmKind, uuid: string, size: U64, identity: Identity, digest: Digest): Identity {
    identity.(
      manifestDigest := digest,
      lvm := Map(identity.lvm, (e: LvmEntry) => ResizeEntry(kind, uuid, size, e)),
      filesystem := if kind.LogicalVolume? && identity.filesystem.Some? then
                      Some(identity.filesystem.value.(backingSizeBytes := size))
                    else identity.filesystem)
  }

  lemma ResizedEntry(kind: LvmKind, uuid: string, size: U64, identity: Identity, digest: Digest)
    requires OnlyLvm(identity, kind, uuid).Some?
    ensures OnlyLvm(AfterVolume(kind, uuid, size, identity, digest), kind, uuid)
            == Some(OnlyLvm(identity, kind, uuid).value.(sizeBytes := size))
  {
    OnlyMap(identity.lvm, (e: LvmEntry) => ResizeEntry(kind, uuid, size, e),
            (e: LvmEntry) => e.kind == kind && e.uuid == Some(uuid));
  }

  /** An accepted resize of a physical volume, applied exactly, is always accepted. */
  lemma PvAgreement(id: nat, uuid: string, expected: U64, identity: Identity, digest: Digest)
    requires CompilePv(id, uuid, expected, identity).Ok?
    ensures PvEffect(uuid, expected, AfterVolume(PhysicalVolume, uuid, expected, identity, digest)).None?
  {
    ResizedEntry(PhysicalVolume, uuid, expected, identity, digest);
  }

  /** An accepted extension of a logical volume, applied exactly, is accepted if and only
      if a filesystem is known and, for an offline growth, nothing is mounted. */
  lemma LvAgreement(id: nat, uuid: string, extents: U64, expected: U64, m: Manifest, identity: Identity,
                    digest: Digest)
    requires CompileLv(id, uuid, extents, expected, identity).Ok?
    ensures LvEffect(uuid, expected, m, AfterVolume(LogicalVolume, uuid, expected, identity, digest)).None? <==>
            identity.filesystem.Some? && (OfflineExt4(m) ==> identity.mounts == [])
  {
    ResizedEntry(LogicalVolume, uuid, expected, identity, digest);
  }

  /** A growth applied exactly, on any layer below the filesystem. */
  function AfterStep(op: Operation, identity: Identity, digest: Digest): Identity {
    match op
    case ExtendPartition(_, _, _, newSize, sector) =>
      if newSize * sector < U64_LIMIT then AfterPartition(op, identity, digest) else identity
    case ResizePhysicalVolume(uuid, expected) => AfterVolume(PhysicalVolume, uuid, expected, identity, digest)
    case ExtendLogicalVolume(uuid, _, expected) => AfterVolume(LogicalVolume, uuid, expected, identity, digest)
    case _ => identity
  }

  /** The target before the growth lets its effect be seen. */
  predicate Observable(op: Operation, m: Manifest, identity: Identity) {
    match op
    case ExtendPartition(partition, _, _, _, _) => |DevicesAt(identity, partition)| == 1
    case ResizePhysicalVolume(_, _) => true
    case ExtendLogicalVolume(_, _, _) => identity.filesystem.Some? && (OfflineExt4(m) ==> identity.mounts == [])
    case _ => false
  }

  lemma StepAgreement(step: IntentStep, m: Manifest, baseline: Identity, identity: Identity, digest: Digest)
    requires CompileStep(step, identity).Ok? && (step.operation.ExtendPartition? ==> baseline == identity)
    ensures StepEffect(step.operation, m, baseline, AfterStep(step.operation, identity, digest)).None? <==>
            Observable(step.operation, m, identity)
  {
    match step.operation
    case ExtendPartition(_, _, _, _, _) => PartitionAgreement(step.planStepId, step.operation, identity, digest);
    case ResizePhysicalVolume(uuid, expected) => PvAgreement(step.planStepId, uuid, expected, identity, digest);
    case ExtendLogicalVolume(uuid, extents, expected) =>
      LvAgreement(step.planStepId, uuid, extents, expected, m, identity, digest);
    case _ =>
  }

  lemma AfterStepKept(op: Operation, identity: Identity, digest: Digest)
    ensures AfterStep(op, identity, digest).routeStatus == identity.routeStatus
  {
  }

  /** The compiler and the boundary check agree on every step of a bound plan: a compiled
      growth that was applied exactly is accepted at the boundary if and only if another
      step follows, the route is supported and the target lets the effect be seen. Volumes
      are judged by the fresh identity alone, a partition against the baseline. */
  lemma BoundaryAgreement(execution: ExecutionBinding, v: Validated, baseline: Identity, identity: Identity,
                          digest: Digest, i: nat)
    requires BindingProblem(execution, v).None? && DistinctIds(NodesOf(v.manifest.steps))
    requires execution.mutationStepIds == MutationIds(v.manifest.steps) && i < |Mutations(v.manifest.steps)|
    requires CompileStep(Mutations(v.manifest.steps)[i], identity).Ok?
    requires Mutations(v.manifest.steps)[i].operation.ExtendPartition? ==> baseline == identity
    ensures var step := Mutations(v.manifest.steps)[i];
            var after := AfterStep(step.operation, identity, digest);
            BoundaryState(execution, v, baseline, after, step.planStepId).Ok? <==>
            && i + 1 < |Mutations(v.manifest.steps)| && identity.routeStatus.SupportedProfile?
            && Observable(step.operation, v.manifest, identity)
  {
    var step := Mutations(v.manifest.steps)[i];
    StepAgreement(step, v.manifest, baseline, identity, digest);
    AfterStepKept(step.operation, identity, digest);
    BoundaryExact(execution, v, baseline, AfterStep(step.operation, identity, digest), i);
  }
}
