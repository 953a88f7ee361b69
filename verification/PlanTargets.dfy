/** What a target must be like for a compiled plan to get through its checks, when every
    growth is applied exactly (crates/executor/src/disposable_argv.rs lines 536-614,
    crates/executor/src/disposable_permit.rs lines 122-239,
    crates/executor/src/disposable_verify.rs lines 120-400). */
module PlanTargets {
  import opened Wrappers
  import opened Operations
  import opened Journals
  import opened DependencyGraph
  import opened TargetIdentity
  import opened ExecutionIntent
  import opened NativeManifests
  import opened DisposableArgv
  import opened DisposablePermits
  import opened BoundaryChecks
  import opened BoundarySessions

  // ----- what a growth leaves alone -----

  /** The part of an identity that commands above the partition are compiled from. */
  predicate SameAbove(a: Identity, b: Identity) {
    a.lvm == b.lvm && a.filesystem == b.filesystem && a.resolvedDevice == b.resolvedDevice && a.mounts == b.mounts
  }

  lemma CompilesAbove(step: IntentStep, a: Identity, b: Identity)
    requires SameAbove(a, b) && !step.operation.ExtendPartition?
    ensures CompileStep(step, a) == CompileStep(step, b)
  {
  }

  /** Resizing a volume of one kind does not touch those of another. */
  lemma OtherKindKept(kind: LvmKind, uuid: string, size: U64, identity: Identity, digest: Digest,
                      other: LvmKind, otherUuid: string)
    requires kind != other
    ensures OnlyLvm(AfterVolume(kind, uuid, size, identity, digest), other, otherUuid)
            == OnlyLvm(identity, other, otherUuid)
  {
    OnlyMap(identity.lvm, (e: LvmEntry) => ResizeEntry(kind, uuid, size, e),
            (e: LvmEntry) => e.kind == other && e.uuid == Some(otherUuid));
  }

  lemma FilesystemCompiledFrom(step: IntentStep, a: Identity, b: Identity)
    requires step.operation.GrowFilesystem? && a.resolvedDevice == b.resolvedDevice && a.mounts == b.mounts
    requires a.filesystem.Some? && b.filesystem.Some?
    requires b.filesystem.value == a.filesystem.value.(backingSizeBytes := b.filesystem.value.backingSizeBytes)
    ensures CompileStep(step, a) == CompileStep(step, b)
  {
  }

  /** The steps of a supported profile: a logical volume and the filesystem on it, perhaps
      with the physical volume and the partition below. */
  predicate IsStack(steps: seq<IntentStep>) {
    && 2 <= |steps| <= 4
    && steps[|steps| - 1].operation.GrowFilesystem? && steps[|steps| - 2].operation.ExtendLogicalVolume?
    && (|steps| >= 3 ==> steps[|steps| - 3].operation.ResizePhysicalVolume?)
    && (|steps| == 4 ==> steps[0].operation.ExtendPartition?)
  }

  lemma StackOf(steps: seq<IntentStep>, layers: seq<Layer>)
    requires LayersAre(steps, layers) && Supported(layers)
    ensures IsStack(steps)
  {
  }

  lemma StackPair(steps: seq<IntentStep>, k: nat, q: nat)
    requires IsStack(steps) && k < q < |steps|
    ensures !steps[q].operation.ExtendPartition?
    ensures || steps[k].operation.ExtendPartition?
            || (steps[q].operation.GrowFilesystem?
                && (steps[k].operation.ResizePhysicalVolume? || steps[k].operation.ExtendLogicalVolume?))
            || (steps[k].operation.ResizePhysicalVolume? && steps[q].operation.ExtendLogicalVolume?)
  {
  }

  /** A step that compiles still does after a lower one has grown. */
  lemma StillCompiles(steps: seq<IntentStep>, k: nat, q: nat, identity: Identity, digest: Digest)
    requires IsStack(steps) && k < q < |steps| && CompileStep(steps[q], identity).Ok?
    ensures CompileStep(steps[q], AfterStep(steps[k].operation, identity, digest)).Ok?
  {
    StackPair(steps, k, q);
    var op, step := steps[k].operation, steps[q];
    if op.ExtendPartition? {
      CompilesAbove(step, identity, AfterStep(op, identity, digest));
    } else if step.operation.GrowFilesystem? {
      CompilesAboveVolume(op, step, identity, digest);
    } else {
      VolumeAboveCompiles(op, step, identity, digest);
    }
  }

  lemma VolumeAboveCompiles(op: Operation, step: IntentStep, identity: Identity, digest: Digest)
    requires op.ResizePhysicalVolume? && step.operation.ExtendLogicalVolume? && CompileStep(step, identity).Ok?
    ensures CompileStep(step, AfterStep(op, identity, digest)).Ok?
  {
    OtherKindKept(PhysicalVolume, op.pvUuid, op.expectedPvSizeBytes, identity, digest,
                  LogicalVolume, step.operation.lvUuid);
  }

  lemma CompilesAboveVolume(op: Operation, step: IntentStep, identity: Identity, digest: Digest)
    requires op.ResizePhysicalVolume? || op.ExtendLogicalVolume?
    requires step.operation.GrowFilesystem? && CompileStep(step, identity).Ok?
    ensures CompileStep(step, AfterStep(op, identity, digest)).Ok?
  {
    FilesystemCompiledFrom(step, identity, AfterStep(op, identity, digest));
  }

  lemma DevicesOwned(a: seq<Device>, b: seq<Device>, loop: string)
    requires |a| == |b| && forall i :: 0 <= i < |a| ==> a[i].path == b[i].path
    ensures (exists d :: d in a && d.path == loop) ==> (exists d :: d in b && d.path == loop)
    ensures (forall d :: d in b && "/dev/loop" <= d.path ==> BelongsToLoop(d.path, loop)) ==>
            (forall d :: d in a && "/dev/loop" <= d.path ==> BelongsToLoop(d.path, loop))
  {
    forall d | d in a ensures exists e :: e in b && e.path == d.path {
      var i :| 0 <= i < |a| && a[i] == d;
      assert b[i] in b && b[i].path == d.path;
    }
  }

  /** No growth changes which loop device owns the target. */
  lemma OwnershipKept(op: Operation, identity: Identity, digest: Digest, loop: string)
    ensures OwnedByLoop(AfterStep(op, identity, digest), loop) <==> OwnedByLoop(identity, loop)
  {
    var after := AfterStep(op, identity, digest);
    DevicesOwned(identity.devices, after.devices, loop);
    DevicesOwned(after.devices, identity.devices, loop);
    match op
    case ResizePhysicalVolume(uuid, expected) => PvKept(PhysicalVolume, uuid, expected, identity, digest);
    case ExtendLogicalVolume(uuid, _, expected) => PvKept(LogicalVolume, uuid, expected, identity, digest);
    case _ =>
  }

  lemma PvKept(kind: LvmKind, uuid: string, size: U64, identity: Identity, digest: Digest)
    ensures var resized := AfterVolume(kind, uuid, size, identity, digest);
            var before, after := Only(identity.lvm, IsPv), Only(resized.lvm, IsPv);
            && before.Some? == after.Some?
            && (before.Some? ==> before.value.name == after.value.name)
  {
    OnlyMap(identity.lvm, (e: LvmEntry) => ResizeEntry(kind, uuid, size, e), IsPv);
  }

  /** A growth keeps the target; only a logical volume's changes what backs the filesystem. */
  lemma TargetKept(op: Operation, identity: Identity, digest: Digest)
    ensures var after := AfterStep(op, identity, digest);
            && after.target == identity.target && after.resolvedDevice == identity.resolvedDevice
            && after.routeStatus == identity.routeStatus && after.mounts == identity.mounts
            && (after.manifestDigest == digest || after.manifestDigest == identity.manifestDigest)
            && (!op.ExtendLogicalVolume? ==> after.filesystem == identity.filesystem)
            && (op.ExtendLogicalVolume? && identity.filesystem.Some? ==>
                  after.filesystem
                  == Some(identity.filesystem.value.(backingSizeBytes := op.expectedLvSizeBytes)))
  {
  }

  // ----- the setting -----

  /** A plan with its execution binding and the identity it was compiled for, the loop device
      that should own the target, how identities are fingerprinted, and the size to which
      the filesystem will have grown. */
  datatype Setting = Setting(
    v: Validated, base: Identity, plan: CommandPlan, execution: ExecutionBinding, loop: LoopEvidence,
    fingerprint: Fingerprint, grownTo: U64)
  {
    function Steps(): seq<IntentStep> {
      Mutations(v.manifest.steps)
    }

    /** The identity after a growth, under its own digest. */
    function After(op: Operation, identity: Identity): Identity {
      AfterStep(op, identity, fingerprint(AfterStep(op, identity, Literal(""))))
    }

    /** The identity after the filesystem's growth. */
    function AfterFilesystem(identity: Identity): Identity {
      var grown := identity.(
        manifestDigest := Literal(""),
        filesystem := if identity.filesystem.Some? then
                        Some(identity.filesystem.value.(observedSizeBytes := Some(grownTo)))
                      else None);
      grown.(manifestDigest := fingerprint(grown))
    }
  }

  /** The execution is bound to the manifest, whose mutation steps are a stack. */
  ghost predicate Bound(p: Setting) {
    && BindingProblem(p.execution, p.v).None? && DistinctIds(NodesOf(p.v.manifest.steps))
    && p.execution.mutationStepIds == MutationIds(p.v.manifest.steps) && IsStack(p.Steps())
  }

  /** The plan was compiled for the identity. */
  ghost predicate Compiled(p: Setting) {
    && RolesFit(p.v.manifest.steps) && CompileFrom(p.Steps(), 0, p.base) && IsPlanOf(p.plan, p.v, p.base)
    && p.execution.freshIdentityDigest == p.base.manifestDigest && IsHexDigest(p.base.manifestDigest)
  }

  ghost predicate Fits(p: Setting) {
    Bound(p) && Compiled(p) && WellFormedDigests(p.fingerprint)
  }

  predicate CompileFrom(steps: seq<IntentStep>, k: nat, identity: Identity) {
    forall q :: k <= q < |steps| ==> CompileStep(steps[q], identity).Ok?
  }

  // ----- the conditions on the target -----

  /** The loop device owns the target, and still holds. */
  predicate LoopReady(p: Setting) {
    p.loop.holds && p.loop.association == p.loop.owned && OwnedByLoop(p.base, p.loop.owned.device)
  }

  function VolumeSize(p: Setting): U64
    requires IsStack(p.Steps())
  {
    p.Steps()[|p.Steps()| - 2].operation.expectedLvSizeBytes
  }

  /** The filesystem's size is known and smaller than the volume will be. */
  predicate Room(p: Setting)
    requires IsStack(p.Steps())
  {
    p.base.filesystem.Some?
    && var observed := p.base.filesystem.value.observedSizeBytes;
       observed.Some? && 0 < observed.value < VolumeSize(p)
  }

  /** The filesystem can be recognized again, and it will really have grown. */
  predicate Recognizable(p: Setting)
    requires IsStack(p.Steps()) && Room(p)
  {
    && p.base.filesystem.value.uuid.Some?
    && p.base.filesystem.value.observedSizeBytes.value < p.grownTo <= VolumeSize(p)
    && SourcesKnown(p)
  }

  /** Where the filesystem is mounted, its source is known. */
  predicate SourcesKnown(p: Setting)
    requires IsStack(p.Steps())
  {
    var op := p.Steps()[|p.Steps()| - 1].operation;
    op.mountpoint.Some? ==>
      forall mount :: mount in MountsAt(p.base, op.mountpoint.value, op.fsType) ==> mount.source.Some?
  }

  /** A partition that is grown has its device listed once. */
  predicate DeviceListed(p: Setting, k: nat)
    requires k < |p.Steps()|
  {
    var op := p.Steps()[k].operation;
    op.ExtendPartition? ==> |DevicesAt(p.base, op.partition)| == 1
  }

  /** What the steps below the filesystem need at one boundary. */
  predicate StepSuits(p: Setting, k: nat)
    requires IsStack(p.Steps()) && k + 1 < |p.Steps()|
  {
    DeviceListed(p, k) && Continues(p.Steps(), k + 1)
  }

  /** Everything the target and the plan must be like for the run to get through: a directly
      chained plan, on a supported route, owned by the loop device, whose effects can be seen
      and whose filesystem has room, can be recognized and grows. */
  predicate Suits(p: Setting)
    requires IsStack(p.Steps())
  {
    && p.base.routeStatus.SupportedProfile? && LoopReady(p) && Room(p) && Recognizable(p)
    && forall k :: 0 <= k < |p.Steps()| - 1 ==> StepSuits(p, k)
  }

  // ----- the checks after one growth -----

  /** The boundary after this step is accepted, and names the next one. */
  ghost predicate BoundaryPasses(p: Setting, k: nat, identity: Identity)
    requires k + 1 < |p.Steps()|
  {
    BoundaryState(p.execution, p.v, p.base, identity, p.Steps()[k].planStepId)
    == Ok((p.Steps()[k + 1].planStepId, identity.manifestDigest))
  }

  /** The permit for the next step is bound. */
  ghost predicate PermitPasses(p: Setting, k: nat, identity: Identity)
    requires k + 1 < |p.Steps()|
  {
    BindNext(p.v, identity, p.loop, p.execution,
             VerifiedBoundary(p.execution.executionId, p.Steps()[k].planStepId, p.Steps()[k + 1].planStepId,
                              identity.manifestDigest)).Ok?
  }

  function BackingAt(p: Setting, k: nat): U64
    requires IsStack(p.Steps()) && p.base.filesystem.Some?
  {
    if k == |p.Steps()| - 1 then VolumeSize(p) else p.base.filesystem.value.backingSizeBytes
  }

  /** What no growth changes, and what the logical volume's growth does. */
  predicate SameTarget(p: Setting, k: nat, identity: Identity)
    requires IsStack(p.Steps())
  {
    && identity.target == p.base.target && identity.resolvedDevice == p.base.resolvedDevice
    && identity.routeStatus == p.base.routeStatus && identity.mounts == p.base.mounts
    && p.base.filesystem.Some?
    && identity.filesystem == Some(p.base.filesystem.value.(backingSizeBytes := BackingAt(p, k)))
  }

  ghost predicate IdentityReady(p: Setting, k: nat, identity: Identity)
    requires IsStack(p.Steps())
  {
    && (k == 0 ==> identity == p.base) && IsHexDigest(identity.manifestDigest) && SameTarget(p, k, identity)
    && (OwnedByLoop(identity, p.loop.owned.device) <==> OwnedByLoop(p.base, p.loop.owned.device))
    && CompileFrom(p.Steps(), k, identity)
  }

  lemma StartIdentity(p: Setting)
    requires Bound(p) && Compiled(p)
    ensures IdentityReady(p, 0, p.base)
  {
    assert CompileStep(p.Steps()[|p.Steps()| - 1], p.base).Ok?;
  }

  lemma CompileFromNext(steps: seq<IntentStep>, k: nat, identity: Identity, digest: Digest)
    requires IsStack(steps) && k + 1 < |steps| && CompileFrom(steps, k, identity)
    ensures CompileFrom(steps, k + 1, AfterStep(steps[k].operation, identity, digest))
  {
    forall q | k + 1 <= q < |steps| ensures CompileStep(steps[q], AfterStep(steps[k].operation, identity, digest)).Ok? {
      StillCompiles(steps, k, q, identity, digest);
    }
  }

  lemma SameTargetNext(p: Setting, k: nat, identity: Identity, digest: Digest)
    requires IsStack(p.Steps()) && k + 1 < |p.Steps()| && SameTarget(p, k, identity)
    ensures SameTarget(p, k + 1, AfterStep(p.Steps()[k].operation, identity, digest))
  {
    TargetKept(p.Steps()[k].operation, identity, digest);
  }

  lemma NextIdentity(p: Setting, k: nat, identity: Identity)
    requires Bound(p) && WellFormedDigests(p.fingerprint) && IdentityReady(p, k, identity) && k + 1 < |p.Steps()|
    ensures IdentityReady(p, k + 1, p.After(p.Steps()[k].operation, identity))
  {
    var op := p.Steps()[k].operation;
    var digest := p.fingerprint(AfterStep(op, identity, Literal("")));
    TargetKept(op, identity, digest);
    SameTargetNext(p, k, identity, digest);
    OwnershipKept(op, identity, digest, p.loop.owned.device);
    CompileFromNext(p.Steps(), k, identity, digest);
  }

  // ----- one growth -----

  /** A plan that grows the filesystem offline was compiled for a target without mounts. */
  lemma OfflineUnmounted(p: Setting)
    requires Bound(p) && Compiled(p) && OfflineExt4(p.v.manifest)
    ensures p.base.mounts == []
  {
    var m := p.v.manifest;
    var step :| step in m.steps && IsOfflineGrow(step);
    var i :| 0 <= i < |m.steps| && m.steps[i] == step;
    assert IsMutation(step) && step in p.Steps();
    var q :| 0 <= q < |p.Steps()| && p.Steps()[q] == step;
    assert CompileStep(step, p.base).Ok?;
  }

  /** Only for a partition the plan's compilation leaves open whether its effect is seen. */
  lemma Seen(p: Setting, k: nat)
    requires Bound(p) && Compiled(p) && k + 1 < |p.Steps()|
    ensures Observable(p.Steps()[k].operation, p.v.manifest, p.base) <==> DeviceListed(p, k)
  {
    StartIdentity(p);
    StackPair(p.Steps(), k, |p.Steps()| - 1);
    if OfflineExt4(p.v.manifest) { OfflineUnmounted(p); }
  }

  lemma SameObservable(op: Operation, m: Manifest, a: Identity, b: Identity)
    requires a.mounts == b.mounts && a.filesystem.Some? == b.filesystem.Some? && (op.ExtendPartition? ==> a == b)
    ensures Observable(op, m, a) == Observable(op, m, b)
  {
  }

  /** The partition is grown first, on the identity that the plan was compiled for. */
  lemma PartitionFirst(p: Setting, k: nat, identity: Identity)
    requires IsStack(p.Steps()) && IdentityReady(p, k, identity) && k + 1 < |p.Steps()|
    ensures p.Steps()[k].operation.ExtendPartition? ==> identity == p.base
  {
    if k > 0 { StackPair(p.Steps(), 0, k); }
  }

  lemma BoundaryWith(p: Setting, k: nat, identity: Identity, digest: Digest)
    requires Bound(p) && IdentityReady(p, k, identity) && k + 1 < |p.Steps()|
    ensures BoundaryState(p.execution, p.v, p.base, AfterStep(p.Steps()[k].operation, identity, digest),
                          p.Steps()[k].planStepId).Ok?
            <==> p.base.routeStatus.SupportedProfile? && Observable(p.Steps()[k].operation, p.v.manifest, p.base)
  {
    PartitionFirst(p, k, identity);
    SameObservable(p.Steps()[k].operation, p.v.manifest, identity, p.base);
    BoundaryAgreement(p.execution, p.v, p.base, identity, digest, k);
  }

  /** The boundary after an exact growth is accepted if and only if the route is supported and
      a partition's device is listed once. */
  lemma BoundaryAt(p: Setting, k: nat, identity: Identity)
    requires Bound(p) && Compiled(p) && IdentityReady(p, k, identity) && k + 1 < |p.Steps()|
    ensures var after := p.After(p.Steps()[k].operation, identity);
            && (BoundaryPasses(p, k, after) <==> p.base.routeStatus.SupportedProfile? && DeviceListed(p, k))
            && (BoundaryState(p.execution, p.v, p.base, after, p.Steps()[k].planStepId).Ok? ==>
                  BoundaryPasses(p, k, after))
            && (BoundaryPasses(p, k, after) ==>
                  StepEffect(p.Steps()[k].operation, p.v.manifest, p.base, after).None?)
  {
    var op := p.Steps()[k].operation;
    Seen(p, k);
    BoundaryWith(p, k, identity, p.fingerprint(AfterStep(op, identity, Literal(""))));
    BoundaryExact(p.execution, p.v, p.base, p.After(op, identity), k);
  }

  lemma StepIds(p: Setting, k: nat)
    requires Bound(p) && k < |p.Steps()|
    ensures |p.execution.mutationStepIds| == |p.Steps()| && p.execution.mutationStepIds[k] == p.Steps()[k].planStepId
    ensures Distinct(p.execution.mutationStepIds)
  {
    MutationIdsOfMutations(p.v.manifest.steps);
    StepIdsDistinct(p.v.manifest.steps);
    MutationIdsDistinct(p.v.manifest.steps);
  }

  /** The next step is compiled for a continuation if and only if it depends directly on the
      one before, and the filesystem, if it is next, has room. */
  lemma NextCompiles(p: Setting, k: nat, identity: Identity)
    requires Bound(p) && 0 < k < |p.Steps()| && IdentityReady(p, k, identity)
    ensures CompileNext(p.v, identity, p.Steps()[k].planStepId).Ok? <==>
            Continues(p.Steps(), k) && (k == |p.Steps()| - 1 ==> Room(p))
  {
    StepIds(p, k);
    StackPair(p.Steps(), 0, k);
    if k < |p.Steps()| - 1 { StackPair(p.Steps(), k, |p.Steps()| - 1); }
    ContinuationExact(p.v, identity, k);
    assert CompileStep(p.Steps()[k], identity).Ok?;
  }

  /** After a verified boundary the permit is bound if and only if, besides, the loop device
      is what it should be. */
  lemma PermitAt(p: Setting, k: nat, identity: Identity)
    requires Bound(p) && k + 1 < |p.Steps()| && IdentityReady(p, k + 1, identity) && BoundaryPasses(p, k, identity)
    ensures PermitPasses(p, k, identity) <==>
            LoopReady(p) && Continues(p.Steps(), k + 1) && (k + 2 == |p.Steps()| ==> Room(p))
  {
    NextCompiles(p, k + 1, identity);
    BoundaryBinds(p.execution, p.v, p.base, identity, p.Steps()[k].planStepId, p.loop);
  }

  /** What the target must be like at one growth. */
  predicate Gate(p: Setting, k: nat)
    requires IsStack(p.Steps()) && k + 1 < |p.Steps()|
  {
    && p.base.routeStatus.SupportedProfile? && LoopReady(p) && StepSuits(p, k)
    && (k + 2 == |p.Steps()| ==> Room(p))
  }

  lemma GateExact(p: Setting, k: nat, identity: Identity, after: Identity)
    requires Fits(p) && k + 1 < |p.Steps()| && IdentityReady(p, k, identity)
    requires after == p.After(p.Steps()[k].operation, identity)
    ensures IdentityReady(p, k + 1, after)
    ensures BoundaryPasses(p, k, after) && PermitPasses(p, k, after) <==> Gate(p, k)
  {
    BoundaryAt(p, k, identity);
    NextIdentity(p, k, identity);
    if BoundaryPasses(p, k, after) { PermitAt(p, k, after); }
  }

  // ----- the filesystem -----

  /** The identity at the end: that of the last moment, with the filesystem grown. */
  lemma FilesystemKept(p: Setting, identity: Identity)
    requires IsStack(p.Steps()) && IdentityReady(p, |p.Steps()| - 1, identity)
    ensures var after, n := p.AfterFilesystem(identity), |p.Steps()|;
            && after.lvm == identity.lvm && after.mounts == identity.mounts
            && after.target == identity.target && after.resolvedDevice == identity.resolvedDevice
            && after.routeStatus == p.base.routeStatus
            && identity.filesystem.Some? && after.filesystem
               == Some(identity.filesystem.value.(observedSizeBytes := Some(p.grownTo)))
  {
  }

  /** Growing the filesystem does not hide the growth of its volume. */
  lemma VolumeStillSeen(op: Operation, m: Manifest, base: Identity, a: Identity, b: Identity)
    requires op.ExtendLogicalVolume? && StepEffect(op, m, base, a).None?
    requires a.lvm == b.lvm && a.mounts == b.mounts && a.filesystem.Some? && b.filesystem.Some?
    requires a.filesystem.value.backingSizeBytes == b.filesystem.value.backingSizeBytes
    ensures StepEffect(op, m, a, b).None?
  {
  }

  lemma MountsSame(fsType: string, mountpoint: Option<string>, before: Identity, current: Identity)
    requires before.mounts == current.mounts
    ensures MountsMatch(fsType, mountpoint, before, current) <==>
            match mountpoint
            case Some(at) => |MountsAt(before, at, fsType)| == 1 && MountsAt(before, at, fsType)[0].source.Some?
            case None => fsType == "ext4" && before.mounts == []
  {
  }

  /** The filesystem as it was compiled: its device, its type and where it is mounted. */
  lemma FilesystemKnown(p: Setting, identity: Identity)
    requires Bound(p) && IdentityReady(p, |p.Steps()| - 1, identity)
    ensures var op, filesystem := p.Steps()[|p.Steps()| - 1].operation, identity.filesystem.value;
            && filesystem.device == identity.resolvedDevice && filesystem.fsType == op.fsType
            && (op.mountpoint.Some? ==> |MountsAt(p.base, op.mountpoint.value, op.fsType)| == 1)
            && (op.mountpoint.None? ==> op.fsType == "ext4" && p.base.mounts == [])
  {
    var step := p.Steps()[|p.Steps()| - 1];
    assert CompileStep(step, identity).Ok?;
    FilesystemCommand(step.planStepId, step.operation.fsType, step.operation.mountpoint, identity);
  }

  lemma MountsSuit(p: Setting, identity: Identity)
    requires Bound(p) && IdentityReady(p, |p.Steps()| - 1, identity)
    ensures var op := p.Steps()[|p.Steps()| - 1].operation;
            MountsMatch(op.fsType, op.mountpoint, identity, p.AfterFilesystem(identity)) <==> SourcesKnown(p)
  {
    var op := p.Steps()[|p.Steps()| - 1].operation;
    FilesystemKnown(p, identity);
    FilesystemKept(p, identity);
    MountsSame(op.fsType, op.mountpoint, identity, p.AfterFilesystem(identity));
    if op.mountpoint.Some? {
      var mounts := MountsAt(p.base, op.mountpoint.value, op.fsType);
      assert mounts == [mounts[0]];
    }
  }

  /** The filesystem's growth is accepted if and only if it can be recognized and did grow. */
  lemma GrowthExact(p: Setting, identity: Identity)
    requires Bound(p) && IdentityReady(p, |p.Steps()| - 1, identity) && Room(p)
    requires p.base.routeStatus.SupportedProfile?
    ensures GrowthEffect(p.Steps()[|p.Steps()| - 1].operation, identity, p.AfterFilesystem(identity)).None?
            <==> Recognizable(p)
  {
    FilesystemKnown(p, identity);
    FilesystemKept(p, identity);
    MountsSuit(p, identity);
  }

  lemma VolumeSeen(p: Setting, identity: Identity)
    requires IsStack(p.Steps()) && SameTarget(p, |p.Steps()| - 1, identity)
    requires StepEffect(p.Steps()[|p.Steps()| - 2].operation, p.v.manifest, p.base, identity).None?
    ensures StepEffect(p.Steps()[|p.Steps()| - 2].operation, p.v.manifest, identity,
                       p.AfterFilesystem(identity)).None?
  {
    VolumeStillSeen(p.Steps()[|p.Steps()| - 2].operation, p.v.manifest, p.base, identity, p.AfterFilesystem(identity));
  }

  lemma BoundaryBeforeLast(p: Setting, identity: Identity, current: Identity)
    requires Bound(p) && current.routeStatus.SupportedProfile?
    requires StepEffect(p.Steps()[|p.Steps()| - 2].operation, p.v.manifest, identity, current).None?
    ensures var r := BoundaryState(p.execution, p.v, identity, current, p.Steps()[|p.Steps()| - 2].planStepId);
            r.Ok? && r.value.0 == p.Steps()[|p.Steps()| - 1].planStepId
  {
    BoundaryExact(p.execution, p.v, identity, current, |p.Steps()| - 2);
  }

  lemma TerminalByGrowth(execution: ExecutionBinding, v: Validated, before: Identity, current: Identity,
                         step: IntentStep)
    requires BindingProblem(execution, v).None? && step.operation.GrowFilesystem?
    requires StepById(v.manifest, step.planStepId) == Some(step)
    requires var ids := execution.mutationStepIds;
             && |ids| >= 2 && ids[|ids| - 1] == step.planStepId
             && var r := BoundaryState(execution, v, before, current, ids[|ids| - 2]);
                r.Ok? && r.value.0 == step.planStepId
    ensures TerminalState(execution, v, before, current, step.planStepId).Ok?
            <==> GrowthEffect(step.operation, before, current).None?
  {
  }

  lemma LastStep(p: Setting)
    requires Bound(p)
    ensures var ids, n := p.execution.mutationStepIds, |p.Steps()|;
            && |ids| == n && ids[n - 1] == p.Steps()[n - 1].planStepId && ids[n - 2] == p.Steps()[n - 2].planStepId
    ensures StepById(p.v.manifest, p.Steps()[|p.Steps()| - 1].planStepId) == Some(p.Steps()[|p.Steps()| - 1])
  {
    StepIds(p, |p.Steps()| - 1);
    StepIds(p, |p.Steps()| - 2);
    StepIdsDistinct(p.v.manifest.steps);
    MutationById(p.v.manifest, |p.Steps()| - 1);
  }

  lemma TerminalOf(p: Setting, identity: Identity, current: Identity)
    requires Bound(p) && current.routeStatus.SupportedProfile?
    requires StepEffect(p.Steps()[|p.Steps()| - 2].operation, p.v.manifest, identity, current).None?
    ensures TerminalState(p.execution, p.v, identity, current, p.Steps()[|p.Steps()| - 1].planStepId).Ok?
            <==> GrowthEffect(p.Steps()[|p.Steps()| - 1].operation, identity, current).None?
  {
    LastStep(p);
    BoundaryBeforeLast(p, identity, current);
    TerminalByGrowth(p.execution, p.v, identity, current, p.Steps()[|p.Steps()| - 1]);
  }

  /** The terminal state is accepted if and only if the filesystem can be recognized and did
      grow. */
  lemma TerminalExact(p: Setting, identity: Identity)
    requires Bound(p) && IdentityReady(p, |p.Steps()| - 1, identity) && Room(p)
    requires p.base.routeStatus.SupportedProfile?
    requires StepEffect(p.Steps()[|p.Steps()| - 2].operation, p.v.manifest, p.base, identity).None?
    ensures Recognizable(p) <==>
            TerminalState(p.execution, p.v, identity, p.AfterFilesystem(identity),
                          p.Steps()[|p.Steps()| - 1].planStepId).Ok?
  {
    FilesystemKept(p, identity);
    VolumeSeen(p, identity);
    TerminalOf(p, identity, p.AfterFilesystem(identity));
    GrowthExact(p, identity);
  }

  // ----- the first permit -----

  lemma FirstBinds(p: Setting)
    requires Bound(p) && Compiled(p)
    ensures BindFirst(p.plan, p.base, p.loop, p.execution, p.Steps()[0].planStepId).Ok? <==> LoopReady(p)
  {
    StepIds(p, 0);
    CommandsInOrder(p.plan, p.v, p.base);
    var ids, commands := p.execution.mutationStepIds, p.plan.commands;
    assert forall i :: 0 <= i < |commands| ==> commands[i].planStepId == ids[i];
    OneCommand(commands, 0);
  }

  // ----- all conditions together -----

  /** The growths from this one on can all get through. */
  predicate GatesFrom(p: Setting, k: nat) {
    IsStack(p.Steps()) && forall i :: k <= i < |p.Steps()| - 1 ==> Gate(p, i)
  }

  lemma GatesNext(p: Setting, k: nat)
    requires IsStack(p.Steps()) && k + 1 < |p.Steps()|
    ensures GatesFrom(p, k) <==> Gate(p, k) && GatesFrom(p, k + 1)
  {
    if Gate(p, k) && GatesFrom(p, k + 1) {
      forall i | k <= i < |p.Steps()| - 1 ensures Gate(p, i) {
      }
    }
  }

  lemma SuitsGates(p: Setting)
    requires IsStack(p.Steps())
    ensures Suits(p) <==> GatesFrom(p, 0) && Room(p) && Recognizable(p)
    ensures Suits(p) ==> LoopReady(p)
  {
    if Suits(p) {
      forall k | 0 <= k < |p.Steps()| - 1 ensures Gate(p, k) {
        assert StepSuits(p, k);
      }
    }
    if GatesFrom(p, 0) && Room(p) && Recognizable(p) {
      assert Gate(p, 0);
      forall k | 0 <= k < |p.Steps()| - 1 ensures StepSuits(p, k) {
        assert Gate(p, k);
      }
    }
  }
}
