/** A plan that gets through: a logical volume on one loop device and the ext4 filesystem on
    it, grown offline (crates/executor/src/disposable_argv.rs lines 425-614,
    crates/executor/src/disposable_verify.rs lines 406-525). */
module SamplePlans {
  import opened Wrappers
  import opened Operations
  import opened Journals
  import opened JournalValidator
  import opened DependencyGraph
  import opened TargetIdentity
  import opened ExecutionIntent
  import opened NativeManifests
  import opened DisposableArgv
  import opened ExecutionStarts
  import opened DisposablePermits
  import opened SampleRecords
  import opened PlanTargets
  import opened PlanRuns

  const VOLUME: string := "/dev/v"
  const LOOP: string := "/dev/loop0"

  function Growth(): IntentStep {
    IntentStep(1, [], Irreversible, MutationCandidate, ExtendLogicalVolume("u", 1, 2))
  }

  function Filling(): IntentStep {
    IntentStep(2, [1], Irreversible, MutationCandidate, GrowFilesystem("ext4", None))
  }

  function Plan(source: Digest): Manifest {
    Manifest(source, [Growth(), Filling()], [BarrierAfter(1), BarrierAfter(2)])
  }

  function Entries(): seq<LvmEntry> {
    [LvmEntry(LogicalVolume, VOLUME, Some("u"), 1, None), LvmEntry(PhysicalVolume, LOOP, Some("p"), 8, None)]
  }

  /** The target before anything is grown. */
  function Target(digest: Digest): Identity {
    Identity("/", digest, VOLUME, SupportedProfile, [Device(LOOP, 8)], [], Entries(),
             Some(Filesystem(VOLUME, "ext4", None, Some("f"), 1, Some(1))), [])
  }

  // ----- the manifest is accepted -----

  lemma PlanGraph(nodes: seq<Node>)
    requires nodes == [Node(1, []), Node(2, [1])]
    ensures GraphOf(nodes) == map[1 := [], 2 := [1]] && DistinctIds(nodes)
  {
    var one := nodes[..1];
    assert one[..0] == [];
    assert GraphOf(one) == map[1 := []];
  }

  lemma PlanAcyclic(g: DependencyGraph.Graph)
    requires g == map[1 := [], 2 := [1]]
    ensures Closed(g) && Acyclic(g) && DependsOn(g, 2, 1)
  {
    assert IsRank(g, map[1 := 0, 2 := 1]);
    var path: seq<nat> := [2, 1];
    assert EdgeAt(g, path, 0);
    assert IsPath(g, path) && path[0] == 2 && path[1] == 1;
  }

  lemma PlanOrdered(source: Digest)
    ensures var steps := Plan(source).steps;
            WellFormed(NodesOf(steps)) && Acyclic(GraphOf(NodesOf(steps))) && LayersOrdered(steps)
  {
    var steps := Plan(source).steps;
    assert NodesOf(steps) == [Node(1, []), Node(2, [1])];
    PlanGraph(NodesOf(steps));
    PlanAcyclic(GraphOf(NodesOf(steps)));
  }

  lemma PlanBarriers(source: Digest)
    ensures BarriersPlaced(Plan(source)) && BarriersComplete(Plan(source))
  {
    var m := Plan(source);
    PlacedAfterMutation(m, 0);
    PlacedAfterMutation(m, 1);
    var ids: seq<nat> := [1, 2];
    assert m.barriers == Map(ids, BarrierAfter);
    OneBarrierEach(ids, 1);
    OneBarrierEach(ids, 2);
  }

  lemma PlanMutations(source: Digest)
    ensures Mutations(Plan(source).steps) == [Growth(), Filling()]
  {
    var steps := Plan(source).steps;
    assert steps[..0] == [] && steps[..2] == steps;
    MutationsNext(steps, 0);
    MutationsNext(steps, 1);
  }

  // ----- it compiles for the target -----

  lemma FilterPair<T(!new)>(a: T, b: T, p: T -> bool)
    ensures Filter([a, b], p) == (if p(a) then [a] else []) + (if p(b) then [b] else [])
  {
    assert [a, b][..1] == [a] && [a][..0] == [];
    assert Filter([a], p) == if p(a) then [a] else [];
  }

  lemma VolumeFound(digest: Digest)
    ensures OnlyLvm(Target(digest), LogicalVolume, "u") == Some(Entries()[0])
  {
    FilterPair(Entries()[0], Entries()[1], (e: LvmEntry) => e.kind == LogicalVolume && e.uuid == Some("u"));
  }

  lemma LoopFound()
    ensures Only(Entries(), IsPv) == Some(Entries()[1])
  {
    FilterPair(Entries()[0], Entries()[1], IsPv);
  }

  lemma GrowthCompiles(digest: Digest)
    ensures CompileStep(Growth(), Target(digest)) == Ok(Lvextend(1, 1, VOLUME))
  {
    VolumeFound(digest);
  }

  lemma FillingCompiles(digest: Digest)
    ensures CompileStep(Filling(), Target(digest)) == Ok(Resize2fs(2, VOLUME))
  {
  }

  lemma PlanCompiled(source: Digest, digest: Digest)
    ensures Compilable(Plan(source).steps, Target(digest))
    ensures CompiledFrom([Lvextend(1, 1, VOLUME), Resize2fs(2, VOLUME)], Mutations(Plan(source).steps), Target(digest))
  {
    GrowthCompiles(digest);
    FillingCompiles(digest);
    PlanMutations(source);
    assert LayersAre(Mutations(Plan(source).steps), [LvLayer, FilesystemLayer]);
  }

  /** The commands of the plan. */
  function Commands(v: Validated, digest: Digest): CommandPlan {
    CommandPlan(v.manifest.sourceManifestId, v.digest, digest, [Lvextend(1, 1, VOLUME), Resize2fs(2, VOLUME)])
  }

  // ----- plan and target suit each other -----

  function OwnedLoop(): LoopEvidence {
    LoopEvidence(Loop(LOOP, "/img"), true, Loop(LOOP, "/img"))
  }

  lemma Owned(digest: Digest)
    ensures OwnedByLoop(Target(digest), LOOP)
  {
    LoopFound();
    assert Device(LOOP, 8) in Target(digest).devices;
  }

  lemma PlanSuits(p: Setting, source: Digest, digest: Digest)
    requires p.v.manifest == Plan(source) && p.base == Target(digest) && p.loop == OwnedLoop() && p.grownTo == 2
    ensures IsStack(p.Steps()) && Suits(p)
  {
    PlanMutations(source);
    Owned(digest);
  }

  lemma PlanAccepted(source: Digest, digest: Digest) returns (v: Validated, base: Identity, plan: CommandPlan)
    ensures v.Bound() && v.manifest == Plan(source) && v.manifest.sourceManifestId == source && base == Target(digest)
    ensures Compilable(v.manifest.steps, base) && IsPlanOf(plan, v, base) && base.manifestDigest == digest
  {
    PlanOrdered(source);
    PlanBarriers(source);
    PlanCompiled(source, digest);
    v, base := Validated(Plan(source), NativeDigest(Plan(source))), Target(digest);
    plan := Commands(v, digest);
  }

  /** Some plan gets through, however identities are fingerprinted: its manifest is accepted,
      it compiles for a target under its own digest, a journal is approved for that target,
      and the run ends in an accepted, completed record. */
  lemma SomePlanCompletes(fingerprint: Fingerprint) returns (j: Journal, p: Setting, final: Journal)
    requires WellFormedDigests(fingerprint)
    ensures Valid(j) && j.phase.Approved? && StartBinding(j, p.plan) == Ok(p.execution)
    ensures p.v.Bound() && Sealed(p.base, fingerprint) && j.baselineManifestDigest == p.base.manifestDigest
    ensures Compilable(p.v.manifest.steps, p.base) && IsPlanOf(p.plan, p.v, p.base) && |p.Steps()| > 0
    ensures var started := Apply(j, ExecutionStarted(p.execution));
            started.Ok? && Run(p, started.value) == Some(final) && Succeeds(p, Some(final))
  {
    var digest := fingerprint(Target(Literal("")));
    var v, base, plan := PlanAccepted(ID, digest);
    j := ApprovedFor(digest);
    PlanCompletes(j, v, base, plan, OwnedLoop(), fingerprint, 2);
    p := Setting(v, base, plan, StartBinding(j, plan).value, OwnedLoop(), fingerprint, 2);
    PlanSuits(p, ID, digest);
    final := Run(p, Apply(j, ExecutionStarted(p.execution)).value).value;
  }
}
