/** Compiling a validated native manifest to commands
    (crates/executor/src/disposable_argv.rs).

    A command is kept as the program and the values its argument vector, standard input and
    kernel refresh are formatted from; the fixed flags around them are not modelled. */
module DisposableArgv {
  import opened Wrappers
  import opened Operations
  import opened Journals
  import opened TargetIdentity
  import opened ExecutionIntent
  import opened NativeManifests
  import opened PartitionNumbers

  /** sfdisk names the partition again when partx refreshes the kernel's view. */
  datatype Command =
    | Sfdisk(planStepId: nat, number: nat, disk: string, start: U64, size: U64)
    | Pvresize(planStepId: nat, rawLimitBytes: U64, pv: string)
    | Lvextend(planStepId: nat, additionalExtents: U64, lv: string)
    | Resize2fs(planStepId: nat, device: string)
    | XfsGrowfs(planStepId: nat, mountpoint: string)

  datatype CommandPlan = CommandPlan(
    sourceManifestId: Digest,
    nativeManifestDigest: Digest,
    freshIdentityDigest: Digest,
    commands: seq<Command>)

  datatype ArgvError =
    | UnsupportedMutationProfile
    | PartitionIdentityNotUnique
    | PartitionGeometryMismatch
    | UnsupportedPartitionTable
    | UnsafePartitionPath
    | PartitionNumberInvalid
    | PartitionGrowthMismatch
    | PhysicalVolumeIdentityNotUnique
    | UnsafePhysicalVolumePath
    | PhysicalVolumeGrowthMismatch
    | PhysicalVolumePeStartMissing
    | LogicalVolumeIdentityNotUnique
    | UnsafeLogicalVolumePath
    | LogicalVolumeGrowthMismatch
    | FilesystemIdentityMissing
    | FilesystemIdentityMismatch
    | FilesystemGrowthNotProven
    | FilesystemMountNotUnique
    | UnsafeFilesystemDevicePath
    | UnsafeFilesystemMountpoint
    | UnsupportedFilesystem

  // ----- one command per operation -----

  /** `compile_partition_extend`. */
  function CompilePartition(id: nat, op: Operation, identity: Identity): Result<Command, ArgvError>
    requires op.ExtendPartition?
  {
    var entry := OnlyPartition(identity, op.partition);
    if entry.None? then Err(PartitionIdentityNotUnique)
    else if entry.value.disk.None? then Err(PartitionGeometryMismatch)
    else
      var geometry, disk := entry.value, entry.value.disk.value;
      if !SafeDevicePath(op.partition) || !SafeDevicePath(disk) then Err(UnsafePartitionPath)
      else if geometry.tableLabel != Some("gpt") && geometry.tableLabel != Some("dos") then
        Err(UnsupportedPartitionTable)
      else if geometry.startSector != Some(op.startSector) || geometry.sizeSectors != Some(op.oldSizeSectors)
              || geometry.sectorSizeBytes != Some(op.sectorSizeBytes)
              || op.sectorSizeBytes == 0 || op.oldSizeSectors == 0
              || op.newSizeSectors <= op.oldSizeSectors then Err(PartitionGeometryMismatch)
      else
        var number := PartitionNumber(op.partition, disk);
        if number.None? then Err(PartitionNumberInvalid)
        else
          var device := Find(identity.devices, (d: Device) => d.path == disk);
          if device.None? || op.startSector + op.newSizeSectors >= U64_LIMIT
             || op.startSector + op.newSizeSectors > device.value.sizeBytes / op.sectorSizeBytes then
            Err(PartitionGrowthMismatch)
          else Ok(Sfdisk(id, number.value, disk, op.startSector, op.newSizeSectors))
  }

  /** `compile_pvresize`: the limit counts the space before the first extent. */
  function CompilePv(id: nat, pvUuid: string, expected: U64, identity: Identity): Result<Command, ArgvError> {
    var entry := OnlyLvm(identity, PhysicalVolume, pvUuid);
    if entry.None? then Err(PhysicalVolumeIdentityNotUnique)
    else
      var pv := entry.value;
      if expected == 0 || expected <= pv.sizeBytes then Err(PhysicalVolumeGrowthMismatch)
      else if !SafeDevicePath(pv.name) then Err(UnsafePhysicalVolumePath)
      else if pv.peStartBytes.None? then Err(PhysicalVolumePeStartMissing)
      else if expected + pv.peStartBytes.value >= U64_LIMIT then Err(PhysicalVolumeGrowthMismatch)
      else Ok(Pvresize(id, expected + pv.peStartBytes.value, pv.name))
  }

  /** `compile_lvextend`. */
  function CompileLv(id: nat, lvUuid: string, extents: U64, expected: U64, identity: Identity)
    : Result<Command, ArgvError>
  {
    var entry := OnlyLvm(identity, LogicalVolume, lvUuid);
    if entry.None? then Err(LogicalVolumeIdentityNotUnique)
    else
      var lv := entry.value;
      if extents == 0 || expected == 0 || expected <= lv.sizeBytes then Err(LogicalVolumeGrowthMismatch)
      else if !SafeDevicePath(lv.name) then Err(UnsafeLogicalVolumePath)
      else Ok(Lvextend(id, extents, lv.name))
  }

  function MountedProblem(identity: Identity, mountpoint: string, fsType: string): Option<ArgvError> {
    if !SafeAbsolutePath(mountpoint) then Some(UnsafeFilesystemMountpoint)
    else if |MountsAt(identity, mountpoint, fsType)| != 1 then Some(FilesystemMountNotUnique)
    else None
  }

  /** `compile_filesystem_grow`: ext4 grows by device, xfs by mountpoint only. */
  function CompileFilesystem(id: nat, fsType: string, mountpoint: Option<string>, identity: Identity)
    : Result<Command, ArgvError>
  {
    if identity.filesystem.None? then Err(FilesystemIdentityMissing)
    else
      var filesystem := identity.filesystem.value;
      if !SafeDevicePath(filesystem.device) then Err(UnsafeFilesystemDevicePath)
      else if filesystem.fsType != fsType || filesystem.device != identity.resolvedDevice then
        Err(FilesystemIdentityMismatch)
      else
        var problem := if mountpoint.Some? then MountedProblem(identity, mountpoint.value, fsType) else None;
        if fsType == "ext4" then
          if problem.Some? then Err(problem.value)
          else if mountpoint.None? && identity.mounts != [] then Err(FilesystemMountNotUnique)
          else Ok(Resize2fs(id, filesystem.device))
        else if fsType == "xfs" then
          if mountpoint.None? then Err(FilesystemMountNotUnique)
          else if problem.Some? then Err(problem.value)
          else Ok(XfsGrowfs(id, mountpoint.value))
        else Err(UnsupportedFilesystem)
  }

  function CompileStep(step: IntentStep, identity: Identity): Result<Command, ArgvError> {
    match step.operation
    case ExtendPartition(_, _, _, _, _) => CompilePartition(step.planStepId, step.operation, identity)
    case ResizePhysicalVolume(pvUuid, expected) => CompilePv(step.planStepId, pvUuid, expected, identity)
    case ExtendLogicalVolume(lvUuid, extents, expected) =>
      CompileLv(step.planStepId, lvUuid, extents, expected, identity)
    case GrowFilesystem(fsType, mountpoint) => CompileFilesystem(step.planStepId, fsType, mountpoint, identity)
    case _ => Err(UnsupportedMutationProfile)
  }

  /** A growth the compiler accepts keeps the start, strictly grows, and ends on the disk;
      so the size in bytes fits a machine integer. */
  lemma PartitionFits(id: nat, op: Operation, identity: Identity)
    requires op.ExtendPartition? && CompilePartition(id, op, identity).Ok?
    ensures var c := CompilePartition(id, op, identity).value;
            && c.Sfdisk? && c.planStepId == id
            && c.start == op.startSector && 0 < op.oldSizeSectors < c.size == op.newSizeSectors
            && PartitionNumber(op.partition, c.disk) == Some(c.number)
            && (exists d :: d in identity.devices && d.path == c.disk
                            && (c.start + c.size) * op.sectorSizeBytes <= d.sizeBytes)
            && c.size * op.sectorSizeBytes < U64_LIMIT
  {
    var c := CompilePartition(id, op, identity).value;
    var device := Find(identity.devices, (d: Device) => d.path == c.disk).value;
    var sectors := device.sizeBytes / op.sectorSizeBytes;
    Products(c.start, c.size, op.sectorSizeBytes, sectors);
  }

  lemma Products(start: nat, size: nat, unit: nat, limit: nat)
    requires start + size <= limit
    ensures size * unit <= (start + size) * unit <= limit * unit
  {
  }

  /** The physical volume is told its new size plus the space before its first extent. */
  lemma PvCommand(id: nat, pvUuid: string, expected: U64, identity: Identity)
    requires CompilePv(id, pvUuid, expected, identity).Ok?
    ensures var c := CompilePv(id, pvUuid, expected, identity).value;
            exists e :: e in identity.lvm && e.kind.PhysicalVolume? && e.uuid == Some(pvUuid)
                        && e.sizeBytes < expected && e.peStartBytes.Some?
                        && c == Pvresize(id, expected + e.peStartBytes.value, e.name)
  {
    var e := OnlyLvm(identity, PhysicalVolume, pvUuid).value;
    assert e in identity.lvm;
  }

  lemma LvCommand(id: nat, lvUuid: string, extents: U64, expected: U64, identity: Identity)
    requires CompileLv(id, lvUuid, extents, expected, identity).Ok?
    ensures var c := CompileLv(id, lvUuid, extents, expected, identity).value;
            0 < extents
            && exists e :: e in identity.lvm && e.kind.LogicalVolume? && e.uuid == Some(lvUuid)
                           && e.sizeBytes < expected && c == Lvextend(id, extents, e.name)
  {
    var e := OnlyLvm(identity, LogicalVolume, lvUuid).value;
    assert e in identity.lvm;
  }

  /** A filesystem is grown by the resolved device if it is ext4 and by its only mount if it
      is xfs; an unmounted one is ext4 on a target without mounts. */
  lemma FilesystemCommand(id: nat, fsType: string, mountpoint: Option<string>, identity: Identity)
    requires CompileFilesystem(id, fsType, mountpoint, identity).Ok?
    ensures var c := CompileFilesystem(id, fsType, mountpoint, identity).value;
            && identity.filesystem.Some? && identity.filesystem.value.fsType == fsType
            && ((fsType == "ext4" && c == Resize2fs(id, identity.resolvedDevice))
                || (fsType == "xfs" && mountpoint.Some? && c == XfsGrowfs(id, mountpoint.value)))
            && (mountpoint.Some? ==> |MountsAt(identity, mountpoint.value, fsType)| == 1)
            && (mountpoint.None? ==> identity.mounts == [])
  {
  }

  /** What can still go wrong, for a step that was accepted when it was frozen, when it is
      compiled against the same identity. */
  predicate Runnable(op: Operation, identity: Identity) {
    match op
    case ExtendPartition(partition, start, oldSize, newSize, sector) =>
      var entry := OnlyPartition(identity, partition);
      entry.Some? && entry.value.disk.Some?
      && var disk := entry.value.disk.value;
         && SafeDevicePath(partition) && SafeDevicePath(disk)
         && (entry.value.tableLabel == Some("gpt") || entry.value.tableLabel == Some("dos"))
         && oldSize > 0 && sector > 0 && PartitionNumber(partition, disk).Some?
         && var device := Find(identity.devices, (d: Device) => d.path == disk);
            device.Some? && start + newSize <= device.value.sizeBytes / sector
    case ResizePhysicalVolume(uuid, expected) =>
      var pv := OnlyLvm(identity, PhysicalVolume, uuid);
      pv.Some? && SafeDevicePath(pv.value.name) && pv.value.peStartBytes.Some?
      && expected + pv.value.peStartBytes.value < U64_LIMIT
    case ExtendLogicalVolume(uuid, _, _) =>
      var lv := OnlyLvm(identity, LogicalVolume, uuid);
      lv.Some? && SafeDevicePath(lv.value.name)
    case GrowFilesystem(fsType, mountpoint) =>
      && identity.filesystem.Some? && SafeDevicePath(identity.filesystem.value.device)
      && identity.filesystem.value.device == identity.resolvedDevice
      && (fsType == "ext4" || fsType == "xfs")
      && (mountpoint.Some? ==> SafeAbsolutePath(mountpoint.value))
    case _ => false
  }

  lemma SectorsFit(size: nat, sector: nat, limit: nat)
    requires sector > 0 && limit < U64_LIMIT && size <= limit / sector
    ensures size < U64_LIMIT
  {
  }

  /** A step accepted at freezing compiles against the same identity if and only if its
      paths are safe and the few facts freezing does not look at hold. */
  lemma FrozenStepCompiles(step: PlanStep, identity: Identity, decision: GrowthDecision)
    requires StepMismatch(step, identity, decision).None? && RoleOf(step.operation).MutationCandidate?
    ensures CompileStep(Translate(step), identity).Ok? <==> Runnable(step.operation, identity)
  {
    match step.operation
    case ExtendPartition(partition, start, oldSize, newSize, sector) => FrozenPartitionCompiles(step, identity);
    case _ =>
  }

  lemma FrozenPartitionCompiles(step: PlanStep, identity: Identity)
    requires step.operation.ExtendPartition? && PartitionMismatch(identity, step.operation).None?
    ensures CompilePartition(step.id, step.operation, identity).Ok? <==> Runnable(step.operation, identity)
  {
    var op := step.operation;
    var entry := OnlyPartition(identity, op.partition).value;
    if entry.disk.Some? {
      var device := Find(identity.devices, (d: Device) => d.path == entry.disk.value);
      if device.Some? && op.startSector + op.newSizeSectors <= device.value.sizeBytes / op.sectorSizeBytes {
        SectorsFit(op.startSector + op.newSizeSectors, op.sectorSizeBytes, device.value.sizeBytes);
      }
    }
  }

  // ----- the whole plan -----

  /** A manifest that passed native validation, with its digest. */
  datatype Validated = Validated(manifest: Manifest, digest: Digest) {
    ghost predicate Bound() {
      NativeValid(manifest) && digest == NativeDigest(manifest)
    }
  }

  function NativeDigest(m: Manifest): Digest {
    Sha256(ManifestTuple(m.sourceManifestId, m.steps, m.barriers))
  }

  /** The four layers a mutation can act on, from the disk up. */
  datatype Layer = PartitionLayer | PvLayer | LvLayer | FilesystemLayer

  function LayerOf(op: Operation): Option<Layer> {
    match op
    case ExtendPartition(_, _, _, _, _) => Some(PartitionLayer)
    case ResizePhysicalVolume(_, _) => Some(PvLayer)
    case ExtendLogicalVolume(_, _, _) => Some(LvLayer)
    case GrowFilesystem(_, _) => Some(FilesystemLayer)
    case _ => None
  }

  const LAYERS: seq<Layer> := [PartitionLayer, PvLayer, LvLayer, FilesystemLayer]

  predicate Supported(layers: seq<Layer>) {
    || layers == [LvLayer, FilesystemLayer]
    || layers == [PvLayer, LvLayer, FilesystemLayer]
    || layers == [PartitionLayer, PvLayer, LvLayer, FilesystemLayer]
  }

  /** The supported profiles are the suffixes of the full stack with at least two layers. */
  lemma SupportedSuffixes(layers: seq<Layer>)
    ensures Supported(layers) <==> 2 <= |layers| <= 4 && layers == LAYERS[4 - |layers|..]
  {
    assert LAYERS[2..] == [LvLayer, FilesystemLayer];
    assert LAYERS[1..] == [PvLayer, LvLayer, FilesystemLayer];
  }

  /** The mutation steps of a manifest, in order. */
  function Mutations(steps: seq<IntentStep>): seq<IntentStep> {
    Filter(steps, IsMutation)
  }

  lemma {:induction false} MutationIdsOfMutations(steps: seq<IntentStep>)
    ensures MutationIds(steps) == Map(Mutations(steps), (s: IntentStep) => s.planStepId)
  {
    if steps != [] {
      MutationIdsOfMutations(steps[..|steps| - 1]);
    }
  }

  /** Each command is compiled from the mutation step in the same place. */
  predicate CompiledFrom(commands: seq<Command>, steps: seq<IntentStep>, identity: Identity) {
    |commands| == |steps| && forall i :: 0 <= i < |steps| ==> CompileStep(steps[i], identity) == Ok(commands[i])
  }

  predicate AllCompile(steps: seq<IntentStep>, identity: Identity) {
    forall i :: 0 <= i < |steps| ==> LayerOf(steps[i].operation).Some? && CompileStep(steps[i], identity).Ok?
  }

  predicate LayersAre(steps: seq<IntentStep>, layers: seq<Layer>) {
    |layers| == |steps| && forall i :: 0 <= i < |steps| ==> LayerOf(steps[i].operation) == Some(layers[i])
  }

  lemma MutationsNext(steps: seq<IntentStep>, i: nat)
    requires i < |steps|
    ensures Mutations(steps[..i + 1])
            == Mutations(steps[..i]) + (if IsMutation(steps[i]) then [steps[i]] else [])
  {
    assert steps[..i + 1][..i] == steps[..i];
  }

  /** One mutation step that does not compile is among the mutation steps. */
  lemma OneRefused(steps: seq<IntentStep>, i: nat, identity: Identity)
    requires i < |steps| && IsMutation(steps[i])
    requires LayerOf(steps[i].operation).None? || CompileStep(steps[i], identity).Err?
    ensures !AllCompile(Mutations(steps), identity)
  {
    assert steps[i] in Mutations(steps);
    var k :| 0 <= k < |Mutations(steps)| && Mutations(steps)[k] == steps[i];
  }

  /** The loop of `compile_disposable_lvm_growth_commands`. */
  method CompileMutations(steps: seq<IntentStep>, identity: Identity)
    returns (r: Result<(seq<Command>, seq<Layer>), ArgvError>)
    ensures r.Ok? <==> AllCompile(Mutations(steps), identity)
    ensures r.Ok? ==>
              && CompiledFrom(r.value.0, Mutations(steps), identity)
              && LayersAre(Mutations(steps), r.value.1)
  {
    var commands: seq<Command> := [];
    var layers: seq<Layer> := [];
    var i := 0;
    while i < |steps|
      invariant 0 <= i <= |steps|
      invariant AllCompile(Mutations(steps[..i]), identity)
      invariant CompiledFrom(commands, Mutations(steps[..i]), identity)
      invariant LayersAre(Mutations(steps[..i]), layers)
    {
      MutationsNext(steps, i);
      var step := steps[i];
      if step.role == MutationCandidate {
        var layer, command := LayerOf(step.operation), CompileStep(step, identity);
        if layer.None? || command.Err? {
          OneRefused(steps, i, identity);
          return Err(if layer.None? then UnsupportedMutationProfile else command.error);
        }
        layers := layers + [layer.value];
        commands := commands + [command.value];
      }
      i := i + 1;
    }
    assert steps[..i] == steps;
    return Ok((commands, layers));
  }

  /** A plan is compiled if and only if every mutation step compiles and the mutation
      layers form a supported profile; its commands are those of the mutation steps, one
      each, in manifest order. */
  method CompileGrowth(v: Validated, identity: Identity) returns (r: Result<CommandPlan, ArgvError>)
    ensures r.Ok? <==> Compilable(v.manifest.steps, identity)
    ensures r.Ok? ==> IsPlanOf(r.value, v, identity)
  {
    var compiled := CompileMutations(v.manifest.steps, identity);
    if compiled.Err? { return Err(compiled.error); }
    var layers := compiled.value.1;
    assert forall ls :: LayersAre(Mutations(v.manifest.steps), ls) ==> ls == layers;
    if !Supported(layers) { return Err(UnsupportedMutationProfile); }
    return Ok(CommandPlan(v.manifest.sourceManifestId, v.digest, identity.manifestDigest, compiled.value.0));
  }

  ghost predicate Compilable(steps: seq<IntentStep>, identity: Identity) {
    AllCompile(Mutations(steps), identity)
    && exists layers :: LayersAre(Mutations(steps), layers) && Supported(layers)
  }

  predicate IsPlanOf(plan: CommandPlan, v: Validated, identity: Identity) {
    && plan.sourceManifestId == v.manifest.sourceManifestId && plan.nativeManifestDigest == v.digest
    && plan.freshIdentityDigest == identity.manifestDigest
    && CompiledFrom(plan.commands, Mutations(v.manifest.steps), identity)
  }

  lemma CompileStepId(step: IntentStep, identity: Identity)
    requires CompileStep(step, identity).Ok?
    ensures CompileStep(step, identity).value.planStepId == step.planStepId
  {
  }

  /** The IDs of a plan's commands are the mutation IDs of its manifest, in order. */
  lemma CommandsInOrder(plan: CommandPlan, v: Validated, identity: Identity)
    requires IsPlanOf(plan, v, identity)
    ensures Map(plan.commands, (c: Command) => c.planStepId) == MutationIds(v.manifest.steps)
  {
    var steps := Mutations(v.manifest.steps);
    MutationIdsOfMutations(v.manifest.steps);
    forall i | 0 <= i < |steps| ensures plan.commands[i].planStepId == steps[i].planStepId {
      CompileStepId(steps[i], identity);
    }
  }

  predicate RunsOn(command: Command, layer: Layer) {
    match layer
    case PartitionLayer => command.Sfdisk?
    case PvLayer => command.Pvresize?
    case LvLayer => command.Lvextend?
    case FilesystemLayer => command.Resize2fs? || command.XfsGrowfs?
  }

  lemma CompiledRuns(step: IntentStep, identity: Identity)
    requires CompileStep(step, identity).Ok? && LayerOf(step.operation).Some?
    ensures RunsOn(CompileStep(step, identity).value, LayerOf(step.operation).value)
  {
  }

  lemma CompiledLayers(commands: seq<Command>, steps: seq<IntentStep>, identity: Identity, layers: seq<Layer>)
    requires CompiledFrom(commands, steps, identity) && LayersAre(steps, layers)
    ensures forall i :: 0 <= i < |commands| ==> RunsOn(commands[i], layers[i])
  {
    forall i | 0 <= i < |commands| ensures RunsOn(commands[i], layers[i]) {
      CompiledRuns(steps[i], identity);
    }
  }

  /** A compiled plan covers a suffix of the storage stack with at least two layers, ends
      with the filesystem, and its commands are those of the program of each layer. */
  lemma PlanProfile(plan: CommandPlan, v: Validated, identity: Identity)
    requires Compilable(v.manifest.steps, identity) && IsPlanOf(plan, v, identity)
    ensures 2 <= |plan.commands| <= 4
    ensures forall i :: 0 <= i < |plan.commands| ==>
              RunsOn(plan.commands[i], LAYERS[4 - |plan.commands| + i])
  {
    var steps := Mutations(v.manifest.steps);
    var layers :| LayersAre(steps, layers) && Supported(layers);
    SupportedSuffixes(layers);
    CompiledLayers(plan.commands, steps, identity, layers);
    assert forall i :: 0 <= i < |layers| ==> layers[i] == LAYERS[4 - |layers| + i];
  }

  // ----- the next command after a verified boundary -----

  function FirstIndex(ids: seq<nat>, id: nat): (r: Option<nat>)
    ensures r.Some? ==> r.value < |ids| && ids[r.value] == id && forall i :: 0 <= i < r.value ==> ids[i] != id
    ensures r.None? ==> id !in ids
  {
    if ids == [] then None
    else if ids[0] == id then Some(0)
    else
      var rest := FirstIndex(ids[1..], id);
      if rest.Some? then Some(rest.value + 1) else None
  }

  /** The step may follow the one before it: it declares a dependency on it. */
  predicate Continues(steps: seq<IntentStep>, position: nat) {
    0 < position < |steps| && steps[position - 1].planStepId in steps[position].dependsOn
  }

  function FilesystemRoom(identity: Identity): Option<ArgvError> {
    if identity.filesystem.None? then Some(FilesystemIdentityMissing)
    else
      var observed := identity.filesystem.value.observedSizeBytes;
      if observed.None? || observed.value == 0 || identity.filesystem.value.backingSizeBytes <= observed.value then
        Some(FilesystemGrowthNotProven)
      else None
  }

  /** A partition is never grown as a continuation; a filesystem only with proven room. */
  function CompileNextStep(step: IntentStep, identity: Identity): Result<Command, ArgvError> {
    match step.operation
    case ExtendPartition(_, _, _, _, _) => Err(UnsupportedMutationProfile)
    case GrowFilesystem(_, _) =>
      var problem := FilesystemRoom(identity);
      if problem.Some? then Err(problem.value) else CompileStep(step, identity)
    case _ => CompileStep(step, identity)
  }

  /** `compile_verified_disposable_next_command`. */
  function CompileNext(v: Validated, identity: Identity, id: nat): Result<CommandPlan, ArgvError> {
    var steps := Mutations(v.manifest.steps);
    var position := FirstIndex(MutationIds(v.manifest.steps), id);
    MutationIdsOfMutations(v.manifest.steps);
    if position.None? || !Continues(steps, position.value) then Err(UnsupportedMutationProfile)
    else
      var command := CompileNextStep(steps[position.value], identity);
      if command.Err? then Err(command.error)
      else
        Ok(CommandPlan(v.manifest.sourceManifestId, v.digest, identity.manifestDigest, [command.value]))
  }

  /** With distinct IDs, a continuation is compiled if and only if its step declares a
      dependency on the mutation step right before it, and its operation compiles. */
  lemma ContinuationExact(v: Validated, identity: Identity, position: nat)
    requires Distinct(MutationIds(v.manifest.steps)) && position < |Mutations(v.manifest.steps)|
    ensures var steps := Mutations(v.manifest.steps);
            var next := CompileNext(v, identity, steps[position].planStepId);
            && (next.Ok? <==> Continues(steps, position) && CompileNextStep(steps[position], identity).Ok?)
            && (next.Ok? ==> next.value.commands == [CompileNextStep(steps[position], identity).value])
  {
    var steps, ids := Mutations(v.manifest.steps), MutationIds(v.manifest.steps);
    MutationIdsOfMutations(v.manifest.steps);
    assert ids[position] == steps[position].planStepId;
    var found := FirstIndex(ids, steps[position].planStepId);
    assert found.Some? && found.value <= position;
  }
}
