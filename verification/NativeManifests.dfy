/** Native manifest validation (crates/executor/src/native_operation.rs,
    `validate_native_manifest`). */
module NativeManifests {
  import opened Wrappers
  import opened Operations
  import opened Journals
  import opened DependencyGraph
  import opened TargetIdentity
  import opened ExecutionIntent

  function LayerRank(op: Operation): Option<nat> {
    match op
    case ExtendPartition(_, _, _, _, _) => Some(1)
    case ResizePhysicalVolume(_, _) => Some(2)
    case ExtendLogicalVolume(_, _, _) => Some(3)
    case GrowFilesystem(_, _) => Some(4)
    case _ => None
  }

  /** A dependency path from one step to another. */
  ghost predicate DependsOn(g: DependencyGraph.Graph, from: nat, to: nat) {
    exists path :: IsPath(g, path) && |path| >= 2 && path[0] == from && path[|path| - 1] == to
  }

  predicate LowerLayer(a: Operation, b: Operation) {
    LayerRank(a).Some? && LayerRank(b).Some? && LayerRank(a).value < LayerRank(b).value
  }

  /** Every step on a higher layer depends on every step on a lower one. */
  ghost predicate LayersOrdered(steps: seq<IntentStep>) {
    forall i, j :: 0 <= i < |steps| && 0 <= j < |steps| && LowerLayer(steps[i].operation, steps[j].operation) ==>
      DependsOn(GraphOf(NodesOf(steps)), steps[j].planStepId, steps[i].planStepId)
  }

  predicate FailClosed(b: Barrier) {
    && b.beforeNextMutation && b.requireFreshTargetIdentity && b.requireFreshCapabilities
    && b.requireExpectedStateCheck && b.stopOnMismatch
  }

  function BarriersFor(barriers: seq<Barrier>, id: nat): seq<Barrier> {
    Filter(barriers, (b: Barrier) => b.afterPlanStepId == id)
  }

  /** A barrier stands after the first step of its ID, which must mutate. */
  predicate BarrierPlaced(m: Manifest, b: Barrier) {
    var step := Find(m.steps, (s: IntentStep) => s.planStepId == b.afterPlanStepId);
    step.Some? && LayerRank(step.value.operation).Some? && FailClosed(b)
  }

  predicate RolesFit(steps: seq<IntentStep>) {
    forall i :: 0 <= i < |steps| ==> steps[i].role == RoleOf(steps[i].operation)
  }

  predicate BarriersPlaced(m: Manifest) {
    forall i :: 0 <= i < |m.barriers| ==> BarrierPlaced(m, m.barriers[i])
  }

  /** A mutation step has exactly one barrier. */
  predicate OneBarrier(m: Manifest, i: nat)
    requires i < |m.steps|
  {
    LayerRank(m.steps[i].operation).Some? ==> |BarriersFor(m.barriers, m.steps[i].planStepId)| == 1
  }

  predicate BarriersComplete(m: Manifest) {
    forall i :: 0 <= i < |m.steps| ==> OneBarrier(m, i)
  }

  /** What a valid native manifest is. */
  ghost predicate NativeValid(m: Manifest) {
    && WellFormed(NodesOf(m.steps)) && Acyclic(GraphOf(NodesOf(m.steps)))
    && LayersOrdered(m.steps) && RolesFit(m.steps) && BarriersPlaced(m) && BarriersComplete(m)
  }

  // ----- the checks, as the program runs them -----

  /** Following one dependency: the path starts with it. */
  lemma DependsOnFirst(g: DependencyGraph.Graph, current: nat, required: nat)
    ensures DependsOn(g, current, required) <==>
            current in g && exists k :: 0 <= k < |g[current]|
                              && (g[current][k] == required || DependsOn(g, g[current][k], required))
  {
    if DependsOn(g, current, required) {
      var path :| IsPath(g, path) && |path| >= 2 && path[0] == current && path[|path| - 1] == required;
      assert EdgeAt(g, path, 0);
      var k :| 0 <= k < |g[current]| && g[current][k] == path[1];
      if |path| > 2 {
        TailPath(g, path);
        assert DependsOn(g, path[1], required);
      }
    }
    if current in g {
      forall k | 0 <= k < |g[current]| && g[current][k] == required ensures DependsOn(g, current, required) {
        assert EdgeAt(g, [current, required], 0);
        assert IsPath(g, [current, required]);
      }
      forall k | 0 <= k < |g[current]| && DependsOn(g, g[current][k], required)
        ensures DependsOn(g, current, required)
      {
        var rest :| IsPath(g, rest) && |rest| >= 2 && rest[0] == g[current][k] && rest[|rest| - 1] == required;
        ConsPath(g, current, rest);
      }
    }
  }

  lemma TailPath(g: DependencyGraph.Graph, path: seq<nat>)
    requires IsPath(g, path) && |path| > 0
    ensures IsPath(g, path[1..])
  {
    forall i | 0 <= i < |path| - 2 ensures EdgeAt(g, path[1..], i) {
      assert EdgeAt(g, path, i + 1);
    }
  }

  lemma ConsPath(g: DependencyGraph.Graph, current: nat, rest: seq<nat>)
    requires IsPath(g, rest) && |rest| > 0 && current in g && rest[0] in g[current]
    ensures IsPath(g, [current] + rest)
  {
    var path := [current] + rest;
    forall i | 0 <= i < |path| - 1 ensures EdgeAt(g, path, i) {
      if i > 0 { assert EdgeAt(g, rest, i - 1); }
    }
  }

  /** `depends_on`, a search without marks: it ends because the graph has a rank. */
  method Follow(g: DependencyGraph.Graph, current: nat, required: nat, ghost rank: map<nat, nat>)
    returns (found: bool)
    requires Closed(g) && IsRank(g, rank)
    ensures found <==> DependsOn(g, current, required)
    decreases if current in g then rank[current] + 1 else 0
  {
    DependsOnFirst(g, current, required);
    if current !in g { return false; }
    var dependsOn := g[current];
    var k := 0;
    while k < |dependsOn|
      invariant 0 <= k <= |dependsOn|
      invariant forall m :: 0 <= m < k ==>
                  dependsOn[m] != required && !DependsOn(g, dependsOn[m], required)
    {
      if dependsOn[k] == required { return true; }
      var below := Follow(g, dependsOn[k], required, rank);
      if below { return true; }
      k := k + 1;
    }
    return false;
  }

  ghost predicate PairOrdered(steps: seq<IntentStep>, g: DependencyGraph.Graph, i: nat, j: nat)
    requires i < |steps| && j < |steps|
  {
    LowerLayer(steps[i].operation, steps[j].operation) ==> DependsOn(g, steps[j].planStepId, steps[i].planStepId)
  }

  ghost predicate BelowOthers(steps: seq<IntentStep>, g: DependencyGraph.Graph, i: nat)
    requires i < |steps|
  {
    forall j :: 0 <= j < |steps| ==> PairOrdered(steps, g, i, j)
  }

  /** The inner loop: every step on a higher layer than this one depends on it. */
  method CheckBelow(steps: seq<IntentStep>, g: DependencyGraph.Graph, i: nat, ghost rank: map<nat, nat>)
    returns (ok: bool)
    requires i < |steps| && Closed(g) && IsRank(g, rank)
    ensures ok <==> BelowOthers(steps, g, i)
  {
    var j := 0;
    while j < |steps|
      invariant 0 <= j <= |steps|
      invariant forall b :: 0 <= b < j ==> PairOrdered(steps, g, i, b)
    {
      if LowerLayer(steps[i].operation, steps[j].operation) {
        var found := Follow(g, steps[j].planStepId, steps[i].planStepId, rank);
        if !found {
          assert !PairOrdered(steps, g, i, j);
          return false;
        }
      }
      j := j + 1;
    }
    return true;
  }

  /** The outer loop. */
  method CheckAllBelow(steps: seq<IntentStep>, g: DependencyGraph.Graph, ghost rank: map<nat, nat>)
    returns (ok: bool)
    requires Closed(g) && IsRank(g, rank)
    ensures ok <==> forall a :: 0 <= a < |steps| ==> BelowOthers(steps, g, a)
  {
    var i := 0;
    while i < |steps|
      invariant 0 <= i <= |steps|
      invariant forall a :: 0 <= a < i ==> BelowOthers(steps, g, a)
    {
      ok := CheckBelow(steps, g, i, rank);
      if !ok { return; }
      i := i + 1;
    }
    return true;
  }

  /** `validate_native_layer_order`, on a graph that passed the graph check. */
  method CheckLayers(steps: seq<IntentStep>, g: DependencyGraph.Graph) returns (ok: bool)
    requires g == GraphOf(NodesOf(steps)) && Closed(g) && Acyclic(g)
    ensures ok <==> LayersOrdered(steps)
  {
    ghost var rank :| IsRank(g, rank);
    ok := CheckAllBelow(steps, g, rank);
    LayersByPairs(steps, g);
  }

  lemma LayersByPairs(steps: seq<IntentStep>, g: DependencyGraph.Graph)
    requires g == GraphOf(NodesOf(steps))
    ensures LayersOrdered(steps) <==> forall a :: 0 <= a < |steps| ==> BelowOthers(steps, g, a)
  {
    if forall a :: 0 <= a < |steps| ==> BelowOthers(steps, g, a) {
      forall i, j | 0 <= i < |steps| && 0 <= j < |steps| && LowerLayer(steps[i].operation, steps[j].operation)
        ensures DependsOn(g, steps[j].planStepId, steps[i].planStepId)
      {
        assert BelowOthers(steps, g, i) && PairOrdered(steps, g, i, j);
      }
    }
  }

  /** The loops of `validate_native_manifest` over steps and barriers. */
  method CheckShape(m: Manifest) returns (ok: bool)
    ensures ok <==> RolesFit(m.steps) && BarriersPlaced(m) && BarriersComplete(m)
  {
    var i := 0;
    while i < |m.steps|
      invariant 0 <= i <= |m.steps|
      invariant forall k :: 0 <= k < i ==> m.steps[k].role == RoleOf(m.steps[k].operation)
    {
      if m.steps[i].role != RoleOf(m.steps[i].operation) { return false; }
      i := i + 1;
    }
    i := 0;
    while i < |m.barriers|
      invariant 0 <= i <= |m.barriers|
      invariant forall k :: 0 <= k < i ==> BarrierPlaced(m, m.barriers[k])
    {
      if !BarrierPlaced(m, m.barriers[i]) { return false; }
      i := i + 1;
    }
    i := 0;
    while i < |m.steps|
      invariant 0 <= i <= |m.steps|
      invariant forall k :: 0 <= k < i ==> OneBarrier(m, k)
    {
      if LayerRank(m.steps[i].operation).Some? && |BarriersFor(m.barriers, m.steps[i].planStepId)| != 1 {
        assert !OneBarrier(m, i);
        return false;
      }
      assert OneBarrier(m, i);
      i := i + 1;
    }
    return true;
  }

  /** `validate_native_manifest`: it accepts exactly the valid manifests. */
  method ValidateManifest(m: Manifest) returns (ok: bool)
    ensures ok <==> NativeValid(m)
  {
    var nodes := NodesOf(m.steps);
    ghost var cycle;
    var graph;
    graph, cycle := ValidateDependencyGraph(nodes);
    if graph.Err? { return false; }
    ok := CheckLayers(m.steps, GraphOf(nodes));
    if !ok { return; }
    ok := CheckShape(m);
  }

  // ----- frozen manifests -----

  /** Distinct IDs, read off the steps. */
  lemma StepIdsDistinct(steps: seq<IntentStep>)
    requires DistinctIds(NodesOf(steps))
    ensures forall i, j :: 0 <= i < j < |steps| ==> steps[i].planStepId != steps[j].planStepId
  {
    var nodes := NodesOf(steps);
    forall i, j | 0 <= i < j < |steps| ensures steps[i].planStepId != steps[j].planStepId {
      assert nodes[i].id != nodes[j].id;
    }
  }

  /** The mutation IDs are distinct, and they are the IDs of the mutation steps. */
  lemma {:induction false} MutationIdsDistinct(steps: seq<IntentStep>)
    requires forall i, j :: 0 <= i < j < |steps| ==> steps[i].planStepId != steps[j].planStepId
    ensures Distinct(MutationIds(steps))
    ensures forall i :: 0 <= i < |steps| && IsMutation(steps[i]) ==> steps[i].planStepId in MutationIds(steps)
    ensures forall id :: id in MutationIds(steps) ==>
              exists i :: 0 <= i < |steps| && IsMutation(steps[i]) && steps[i].planStepId == id
  {
    if steps != [] {
      var n := |steps| - 1;
      var prefix := steps[..n];
      MutationIdsDistinct(prefix);
      assert forall i :: 0 <= i < n ==> prefix[i] == steps[i];
      assert steps[n].planStepId !in MutationIds(prefix);
      forall id | id in MutationIds(steps)
        ensures exists i :: 0 <= i < |steps| && IsMutation(steps[i]) && steps[i].planStepId == id
      {
        assert id in MutationIds(prefix) || (IsMutation(steps[n]) && steps[n].planStepId == id);
      }
    }
  }

  /** Each listed ID has exactly one barrier. */
  lemma {:induction false} OneBarrierEach(ids: seq<nat>, id: nat)
    requires Distinct(ids)
    ensures |BarriersFor(Map(ids, BarrierAfter), id)| == if id in ids then 1 else 0
  {
    if ids != [] {
      var n := |ids| - 1;
      assert Map(ids, BarrierAfter)[..n] == Map(ids[..n], BarrierAfter);
      OneBarrierEach(ids[..n], id);
      assert ids[n] !in ids[..n];
      assert id in ids <==> id in ids[..n] || id == ids[n];
    }
  }

  /** With distinct IDs, looking a step up by ID finds that step. */
  lemma FindsStep(steps: seq<IntentStep>, k: nat)
    requires forall i, j :: 0 <= i < j < |steps| ==> steps[i].planStepId != steps[j].planStepId
    requires k < |steps|
    ensures Find(steps, (s: IntentStep) => s.planStepId == steps[k].planStepId) == Some(steps[k])
  {
    assert steps[k] in steps;
  }

  /** A barrier made for a mutation step stands where native validation wants it. */
  lemma PlacedAfterMutation(m: Manifest, k: nat)
    requires forall i, j :: 0 <= i < j < |m.steps| ==> m.steps[i].planStepId != m.steps[j].planStepId
    requires k < |m.steps| && LayerRank(m.steps[k].operation).Some?
    ensures BarrierPlaced(m, BarrierAfter(m.steps[k].planStepId))
  {
    var b := BarrierAfter(m.steps[k].planStepId);
    FindsStep(m.steps, k);
    assert m.steps[k] in m.steps;
    var step := Find(m.steps, (s: IntentStep) => s.planStepId == b.afterPlanStepId);
    assert step.Some?;
  }

  /** Freezing keeps every step, in order and with all it says, and the frozen steps mutate
      exactly where the operation has a layer. */
  lemma FrozenRoles(steps: seq<PlanStep>, frozen: seq<IntentStep>)
    requires frozen == Map(steps, Translate)
    ensures NodesOf(frozen) == PlanNodes(steps)
    ensures forall i :: 0 <= i < |frozen| ==>
              frozen[i].operation == steps[i].operation && frozen[i].reversibility == steps[i].reversibility
    ensures forall i :: 0 <= i < |frozen| ==> frozen[i].role == RoleOf(frozen[i].operation)
    ensures forall i :: 0 <= i < |frozen| ==> (IsMutation(frozen[i]) <==> LayerRank(frozen[i].operation).Some?)
  {
    forall i | 0 <= i < |frozen|
      ensures frozen[i].role == RoleOf(frozen[i].operation)
      ensures IsMutation(frozen[i]) <==> LayerRank(frozen[i].operation).Some?
      ensures frozen[i].operation == steps[i].operation && frozen[i].reversibility == steps[i].reversibility
    {
      assert frozen[i] == Translate(steps[i]);
    }
  }

  /** A manifest frozen from an accepted plan passes every native check but the layer
      order: it is valid if and only if lower layers come before higher ones. */
  lemma FrozenManifestIsNative(steps: seq<PlanStep>, m: Manifest)
    requires WellFormed(PlanNodes(steps)) && Acyclic(GraphOf(PlanNodes(steps)))
    requires m.steps == Map(steps, Translate) && m.barriers == Map(MutationIds(m.steps), BarrierAfter)
    ensures NativeValid(m) <==> LayersOrdered(m.steps)
  {
    FrozenRoles(steps, m.steps);
    StepIdsDistinct(m.steps);
    MutationIdsDistinct(m.steps);
    var ids := MutationIds(m.steps);
    forall i | 0 <= i < |m.barriers| ensures BarrierPlaced(m, m.barriers[i]) {
      assert ids[i] in ids;
      var k :| 0 <= k < |m.steps| && IsMutation(m.steps[k]) && m.steps[k].planStepId == ids[i];
      PlacedAfterMutation(m, k);
    }
    forall i | 0 <= i < |m.steps| ensures OneBarrier(m, i) {
      OneBarrierEach(ids, m.steps[i].planStepId);
    }
  }
}
