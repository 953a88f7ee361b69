/** Plans that the program accepts and starts, and that can never be continued
    (crates/executor/src/native_operation.rs lines 342-378, crates/executor/src/disposable_argv.rs
    lines 425-614): native validation follows dependencies through other steps, a continuation
    wants one on the mutation right before it. */
module StuckPlans {
  import opened Wrappers
  import opened Operations
  import opened Journals
  import opened JournalValidator
  import opened DependencyGraph
  import opened TargetIdentity
  import opened ExecutionIntent
  import opened NativeManifests
  import opened PartitionNumbers
  import opened DisposableArgv
  import opened ExecutionStarts
  import opened SampleRecords

  /** A logical volume step, a verification step that waits for it, and a filesystem step
      that waits for the verification step. */
  predicate IsDetour(m: Manifest) {
    && |m.steps| == 3
    && NodesOf(m.steps) == [Node(1, []), Node(2, [1]), Node(3, [2])]
    && m.steps[0].role.MutationCandidate? && m.steps[0].operation.ExtendLogicalVolume?
    && m.steps[1].role.Verification? && m.steps[1].operation.RediscoverAndVerify?
    && m.steps[2].role.MutationCandidate? && m.steps[2].operation.GrowFilesystem?
    && m.barriers == [BarrierAfter(1), BarrierAfter(3)]
  }

  lemma ChainGraph(nodes: seq<Node>)
    requires nodes == [Node(1, []), Node(2, [1]), Node(3, [2])]
    ensures GraphOf(nodes) == map[1 := [], 2 := [1], 3 := [2]] && DistinctIds(nodes)
  {
    var two, one := nodes[..2], nodes[..1];
    assert two[..1] == one && one[..0] == [];
    assert GraphOf(one) == map[1 := []];
    assert GraphOf(two) == map[1 := [], 2 := [1]];
  }

  lemma ChainAcyclic(g: DependencyGraph.Graph)
    requires g == map[1 := [], 2 := [1], 3 := [2]]
    ensures Closed(g) && Acyclic(g) && DependsOn(g, 3, 1)
  {
    assert IsRank(g, map[1 := 0, 2 := 1, 3 := 2]);
    var path: seq<nat> := [3, 2, 1];
    assert EdgeAt(g, path, 0) && EdgeAt(g, path, 1);
    assert IsPath(g, path) && path[0] == 3 && path[2] == 1;
  }

  lemma DetourSteps(m: Manifest)
    requires IsDetour(m)
    ensures m.steps[0].planStepId == 1 && m.steps[1].planStepId == 2 && m.steps[2].planStepId == 3
    ensures m.steps[2].dependsOn == [2]
    ensures forall i, j :: 0 <= i < j < |m.steps| ==> m.steps[i].planStepId != m.steps[j].planStepId
  {
    var nodes := NodesOf(m.steps);
    assert nodes[0] == Node(1, []) && nodes[1] == Node(2, [1]) && nodes[2] == Node(3, [2]);
  }

  lemma DetourOrdered(m: Manifest)
    requires IsDetour(m)
    ensures WellFormed(NodesOf(m.steps)) && Acyclic(GraphOf(NodesOf(m.steps))) && LayersOrdered(m.steps)
  {
    ChainGraph(NodesOf(m.steps));
    ChainAcyclic(GraphOf(NodesOf(m.steps)));
    DetourSteps(m);
    OnlyLayers(m.steps);
  }

  lemma OnlyLayers(steps: seq<IntentStep>)
    requires |steps| == 3 && steps[0].operation.ExtendLogicalVolume? && steps[1].operation.RediscoverAndVerify?
    requires steps[2].operation.GrowFilesystem?
    requires DependsOn(GraphOf(NodesOf(steps)), steps[2].planStepId, steps[0].planStepId)
    ensures LayersOrdered(steps)
  {
    forall i, j | 0 <= i < 3 && 0 <= j < 3 && LowerLayer(steps[i].operation, steps[j].operation)
      ensures i == 0 && j == 2
    {
      assert i != 1 && j != 1;
    }
  }

  lemma DetourBarriers(m: Manifest)
    requires IsDetour(m)
    ensures BarriersPlaced(m) && BarriersComplete(m)
  {
    DetourSteps(m);
    PlacedAfterMutation(m, 0);
    PlacedAfterMutation(m, 2);
    var ids: seq<nat> := [1, 3];
    assert m.barriers == Map(ids, BarrierAfter);
    OneBarrierEach(ids, 1);
    OneBarrierEach(ids, 3);
  }

  lemma DetourMutations(m: Manifest)
    requires IsDetour(m)
    ensures Mutations(m.steps) == [m.steps[0], m.steps[2]]
  {
    var steps := m.steps;
    assert steps[..0] == [] && steps[..3] == steps;
    MutationsNext(steps, 0);
    MutationsNext(steps, 1);
    MutationsNext(steps, 2);
  }

  lemma DetourValid(m: Manifest)
    requires IsDetour(m)
    ensures NativeValid(m)
  {
    DetourSteps(m);
    DetourOrdered(m);
    DetourBarriers(m);
  }

  lemma DetourRefused(m: Manifest, identity: Identity)
    requires IsDetour(m)
    ensures CompileNext(Validated(m, NativeDigest(m)), identity, 3) == Err(UnsupportedMutationProfile)
  {
    DetourSteps(m);
    DetourMutations(m);
    MutationIdsOfMutations(m.steps);
    var ids := MutationIds(m.steps);
    assert ids[0] == 1 && ids[1] == 3;
    ContinuationExact(Validated(m, NativeDigest(m)), identity, 1);
  }

  // ----- such a plan is started -----

  /** The volume is to grow by something, and the filesystem is one the compiler knows, with
      a safe mountpoint where it needs or has one. */
  predicate Growable(m: Manifest)
    requires IsDetour(m)
  {
    var volume, filesystem := m.steps[0].operation, m.steps[2].operation;
    && volume.additionalExtents > 0 && volume.expectedLvSizeBytes > 0
    && (filesystem.fsType == "ext4" || (filesystem.fsType == "xfs" && filesystem.mountpoint.Some?))
    && (filesystem.mountpoint.Some? ==> SafeAbsolutePath(filesystem.mountpoint.value))
  }

  const VOLUME: string := "/dev/vg/lv"

  /** A target with one logical volume and the filesystem on it. */
  function TargetOf(m: Manifest, digest: Digest): Identity
    requires IsDetour(m)
  {
    var filesystem := m.steps[2].operation;
    var mounts := match filesystem.mountpoint
      case None => []
      case Some(at) => [Mount(at, Some(VOLUME), Some(filesystem.fsType), [])];
    Identity("/", digest, VOLUME, SupportedProfile, [], [],
             [LvmEntry(LogicalVolume, VOLUME, Some(m.steps[0].operation.lvUuid), 0, None)],
             Some(Filesystem(VOLUME, filesystem.fsType, None, None, 0, None)), mounts)
  }

  lemma VolumeCompiles(m: Manifest, digest: Digest)
    requires IsDetour(m) && Growable(m)
    ensures CompileStep(m.steps[0], TargetOf(m, digest)).Ok?
  {
    var identity := TargetOf(m, digest);
    var named := (e: LvmEntry) => e.kind == LogicalVolume && e.uuid == Some(m.steps[0].operation.lvUuid);
    assert identity.lvm[..0] == [] && named(identity.lvm[0]);
    assert Filter(identity.lvm, named) == identity.lvm;
  }

  lemma FilesystemCompiles(m: Manifest, digest: Digest)
    requires IsDetour(m) && Growable(m)
    ensures CompileStep(m.steps[2], TargetOf(m, digest)).Ok?
  {
    var identity, filesystem := TargetOf(m, digest), m.steps[2].operation;
    if filesystem.mountpoint.Some? {
      var at := filesystem.mountpoint.value;
      var there := (mount: Mount) => mount.target == at && mount.fsType == Some(filesystem.fsType);
      assert identity.mounts[..0] == [] && there(identity.mounts[0]);
      assert Filter(identity.mounts, there) == identity.mounts;
    }
  }

  /** That target under its own digest. */
  function SealedTarget(m: Manifest, fingerprint: Fingerprint): (identity: Identity)
    requires IsDetour(m)
    ensures Sealed(identity, fingerprint)
  {
    TargetOf(m, fingerprint(TargetOf(m, Literal(""))))
  }

  lemma TargetCompiles(m: Manifest, digest: Digest)
    requires IsDetour(m) && Growable(m)
    ensures Compilable(m.steps, TargetOf(m, digest))
  {
    DetourMutations(m);
    VolumeCompiles(m, digest);
    FilesystemCompiles(m, digest);
    assert LayersAre(Mutations(m.steps), [LvLayer, FilesystemLayer]);
  }

  /** However identities are fingerprinted, a detour compiles for one of them if and only if
      its operations are growable. */
  lemma DetourCompiles(m: Manifest, fingerprint: Fingerprint)
    requires IsDetour(m)
    ensures (exists identity :: Sealed(identity, fingerprint) && Compilable(m.steps, identity)) <==> Growable(m)
  {
    if Growable(m) {
      TargetCompiles(m, fingerprint(TargetOf(m, Literal(""))));
      assert Compilable(m.steps, SealedTarget(m, fingerprint));
    }
    forall identity | Compilable(m.steps, identity) ensures Growable(m) {
      CompilableGrows(m, identity);
    }
  }

  lemma CompilableGrows(m: Manifest, identity: Identity)
    requires IsDetour(m) && Compilable(m.steps, identity)
    ensures Growable(m)
  {
    DetourMutations(m);
    var steps := Mutations(m.steps);
    assert CompileStep(steps[0], identity).Ok? && CompileStep(steps[1], identity).Ok?;
  }

  /** The plan compiled from a detour. */
  lemma PlanOfDetour(m: Manifest, identity: Identity) returns (plan: CommandPlan)
    requires IsDetour(m) && Compilable(m.steps, identity)
    ensures IsPlanOf(plan, Validated(m, NativeDigest(m)), identity) && CommandIds(plan) == [1, 3]
  {
    DetourSteps(m);
    DetourMutations(m);
    var steps := Mutations(m.steps);
    var first, second := CompileStep(steps[0], identity), CompileStep(steps[1], identity);
    plan := CommandPlan(m.sourceManifestId, NativeDigest(m), identity.manifestDigest, [first.value, second.value]);
    CompileStepId(steps[0], identity);
    CompileStepId(steps[1], identity);
  }

  /** The binding starts the execution, and the record it gives is accepted. */
  ghost predicate Starts(j: Journal, plan: CommandPlan) {
    StartBinding(j, plan).Ok?
    && var started := Apply(j, ExecutionStarted(StartBinding(j, plan).value));
       started.Ok? && Valid(started.value)
  }

  /** Whenever a detour compiles for an identity, its plan starts on every journal that was
      approved for that identity. */
  lemma DetourStarts(m: Manifest, identity: Identity, j: Journal) returns (plan: CommandPlan)
    requires IsDetour(m) && Compilable(m.steps, identity) && IsHexDigest(m.sourceManifestId)
    requires Valid(j) && j.phase.Approved? && j.baselineManifestDigest == identity.manifestDigest
    ensures IsPlanOf(plan, Validated(m, NativeDigest(m)), identity) && Starts(j, plan)
  {
    plan := PlanOfDetour(m, identity);
    ApprovedStarts(j, plan);
    StartAccepted(j, plan);
  }

  /** Native validation accepts every detour, but once its volume has grown no identity
      lets the filesystem command be compiled. */
  lemma DetourIsStuck(m: Manifest)
    requires IsDetour(m)
    ensures NativeValid(m)
    ensures forall later :: CompileNext(Validated(m, NativeDigest(m)), later, 3) == Err(UnsupportedMutationProfile)
  {
    DetourValid(m);
    forall later ensures CompileNext(Validated(m, NativeDigest(m)), later, 3) == Err(UnsupportedMutationProfile) {
      DetourRefused(m, later);
    }
  }

  // ----- from freezing to the stuck execution -----

  /** The manifest is what freezing this plan against this identity gives. */
  ghost predicate FrozenFrom(m: Manifest, steps: seq<PlanStep>, identity: Identity, decision: GrowthDecision) {
    && WellFormed(PlanNodes(steps)) && Acyclic(GraphOf(PlanNodes(steps)))
    && StepsAccepted(steps, identity, decision)
    && m.steps == Map(steps, Translate) && m.barriers == Map(MutationIds(m.steps), BarrierAfter)
  }

  function Thawed(step: IntentStep): PlanStep {
    PlanStep(step.planStepId, step.dependsOn, step.operation, step.reversibility)
  }

  function ReadyDecision(m: Manifest): GrowthDecision
    requires IsDetour(m)
  {
    var filesystem := m.steps[2].operation;
    GrowthDecision("/", Some(VOLUME), filesystem.mountpoint, Some(filesystem.fsType),
                   if filesystem.mountpoint.Some? then ReadyOnlineGrow else ReadyOfflineGrow)
  }

  lemma VolumeAccepted(m: Manifest, digest: Digest)
    requires IsDetour(m) && Growable(m) && m.steps[0].operation.lvUuid != ""
    ensures StepMismatch(Thawed(m.steps[0]), TargetOf(m, digest), ReadyDecision(m)).None?
  {
    var identity := TargetOf(m, digest);
    var named := (e: LvmEntry) => e.kind == LogicalVolume && e.uuid == Some(m.steps[0].operation.lvUuid);
    assert identity.lvm[..0] == [] && named(identity.lvm[0]);
    assert Filter(identity.lvm, named) == identity.lvm;
  }

  lemma FilesystemAccepted(m: Manifest, digest: Digest)
    requires IsDetour(m) && Growable(m)
    ensures StepMismatch(Thawed(m.steps[2]), TargetOf(m, digest), ReadyDecision(m)).None?
  {
    FilesystemCompiles(m, digest);
  }

  lemma ThawedTranslates(m: Manifest)
    requires IsDetour(m)
    ensures Map(Map(m.steps, Thawed), Translate) == m.steps
    ensures PlanNodes(Map(m.steps, Thawed)) == NodesOf(m.steps)
  {
  }

  lemma DetourAccepted(m: Manifest, digest: Digest)
    requires IsDetour(m) && Growable(m) && m.steps[0].operation.lvUuid != ""
    ensures StepsAccepted(Map(m.steps, Thawed), TargetOf(m, digest), ReadyDecision(m))
  {
    VolumeAccepted(m, digest);
    FilesystemAccepted(m, digest);
  }

  lemma DetourMutationIds(m: Manifest)
    requires IsDetour(m)
    ensures MutationIds(m.steps) == [1, 3]
  {
    DetourMutations(m);
    DetourSteps(m);
    MutationIdsOfMutations(m.steps);
  }

  lemma DetourFrozen(m: Manifest, digest: Digest)
    requires IsDetour(m) && Growable(m) && m.steps[0].operation.lvUuid != ""
    ensures FrozenFrom(m, Map(m.steps, Thawed), TargetOf(m, digest), ReadyDecision(m))
  {
    ThawedTranslates(m);
    DetourOrdered(m);
    DetourAccepted(m, digest);
    DetourMutationIds(m);
  }

  /** All of it happens to one plan. However identities are fingerprinted, for every growable
      detour with a volume UUID there is a target such that a plan freezes to the detour;
      native validation accepts it; it compiles; on a journal approved for that target its
      plan starts the execution, and the started record is accepted; and after its volume
      has grown, no identity lets the filesystem command be compiled. */
  lemma DetourHappens(m: Manifest, fingerprint: Fingerprint)
    returns (identity: Identity, steps: seq<PlanStep>, decision: GrowthDecision, j: Journal, plan: CommandPlan)
    requires IsDetour(m) && Growable(m) && m.steps[0].operation.lvUuid != ""
    requires IsHexDigest(m.sourceManifestId) && WellFormedDigests(fingerprint)
    ensures Sealed(identity, fingerprint) && FrozenFrom(m, steps, identity, decision)
    ensures NativeValid(m) && Compilable(m.steps, identity)
    ensures Valid(j) && j.phase.Approved? && j.baselineManifestDigest == identity.manifestDigest
    ensures IsPlanOf(plan, Validated(m, NativeDigest(m)), identity) && Starts(j, plan)
    ensures forall later :: CompileNext(Validated(m, NativeDigest(m)), later, 3) == Err(UnsupportedMutationProfile)
  {
    identity := SealedTarget(m, fingerprint);
    steps, decision := Map(m.steps, Thawed), ReadyDecision(m);
    DetourFrozen(m, identity.manifestDigest);
    TargetCompiles(m, identity.manifestDigest);
    j := ApprovedFor(identity.manifestDigest);
    plan := DetourStarts(m, identity, j);
    DetourIsStuck(m);
  }
}
