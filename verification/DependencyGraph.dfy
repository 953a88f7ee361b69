/** Dependency graph validation (crates/executor/src/execution_intent.rs,
    `validate_dependency_graph`; crates/executor/src/native_operation.rs repeats the same
    algorithm on compiled steps). */
module DependencyGraph {
  import opened Wrappers

  /** The part of a step the graph check looks at. */
  datatype Node = Node(id: nat, dependsOn: seq<nat>)

  datatype GraphError =
    | ZeroStepId
    | DuplicateStepId(id: nat)
    | UnknownDependency(id: nat, dependency: nat)
    | SelfDependency(id: nat)
    | DependencyCycle

  type Graph = map<nat, seq<nat>>

  predicate DistinctIds(nodes: seq<Node>) {
    && (forall i :: 0 <= i < |nodes| ==> nodes[i].id != 0)
    && (forall i, j :: 0 <= i < j < |nodes| ==> nodes[i].id != nodes[j].id)
  }

  function GraphOf(nodes: seq<Node>): (g: Graph)
    ensures forall id :: id in g <==> exists i :: 0 <= i < |nodes| && nodes[i].id == id
    ensures DistinctIds(nodes) ==> forall i :: 0 <= i < |nodes| ==> g[nodes[i].id] == nodes[i].dependsOn
  {
    if nodes == [] then map[]
    else
      var n := |nodes| - 1;
      var prefix := nodes[..n];
      assert forall i :: 0 <= i < n ==> prefix[i] == nodes[i];
      GraphOf(prefix)[nodes[n].id := nodes[n].dependsOn]
  }

  /** Every dependency is another node. */
  predicate Closed(g: Graph) {
    forall id, k :: id in g && 0 <= k < |g[id]| ==> g[id][k] in g && g[id][k] != id
  }

  /** A topological rank: every node comes after its dependencies. */
  predicate IsRank(g: Graph, rank: map<nat, nat>) {
    && (forall id :: id in g ==> id in rank)
    && (forall id, k :: id in g && 0 <= k < |g[id]| && g[id][k] in rank ==> rank[g[id][k]] < rank[id])
  }

  ghost predicate Acyclic(g: Graph) {
    exists rank :: IsRank(g, rank)
  }

  predicate EdgeAt(g: Graph, path: seq<nat>, i: int)
    requires 0 <= i < |path| - 1
  {
    path[i] in g && path[i + 1] in g[path[i]]
  }

  /** Each element depends on the next. */
  predicate IsPath(g: Graph, path: seq<nat>) {
    forall i :: 0 <= i < |path| - 1 ==> EdgeAt(g, path, i)
  }

  predicate IsCycle(g: Graph, path: seq<nat>) {
    IsPath(g, path) && |path| >= 2 && path[0] == path[|path| - 1]
  }

  /** Along a path the rank falls. */
  lemma {:induction false} RankFalls(g: Graph, rank: map<nat, nat>, path: seq<nat>, n: nat)
    requires Closed(g) && IsRank(g, rank) && IsPath(g, path) && n < |path| && path[0] in g
    ensures path[n] in g && rank[path[n]] + n <= rank[path[0]]
  {
    if n > 0 {
      RankFalls(g, rank, path, n - 1);
      assert EdgeAt(g, path, n - 1);
      var k :| 0 <= k < |g[path[n - 1]]| && g[path[n - 1]][k] == path[n];
    }
  }

  /** A graph with a cycle has no topological rank. */
  lemma CycleHasNoRank(g: Graph, path: seq<nat>)
    requires Closed(g) && IsCycle(g, path)
    ensures !Acyclic(g)
  {
    assert EdgeAt(g, path, 0);
    forall rank ensures !IsRank(g, rank) {
      if IsRank(g, rank) {
        RankFalls(g, rank, path, |path| - 1);
      }
    }
  }

  datatype Mark = Visiting | Done

  /** The nodes being visited are exactly the stack, and each depends on the next. */
  predicate OnStack(g: Graph, states: map<nat, Mark>, stack: seq<nat>) {
    && IsPath(g, stack)
    && (forall id :: id in states && states[id].Visiting? ==> id in stack)
    && (forall i :: 0 <= i < |stack| ==> stack[i] in states && states[stack[i]].Visiting?)
    && (forall i, j :: 0 <= i < j < |stack| ==> stack[i] != stack[j])
  }

  predicate DependenciesBefore(g: Graph, order: seq<nat>, i: nat)
    requires i < |order|
  {
    order[i] in g && forall k :: 0 <= k < |g[order[i]]| ==> g[order[i]][k] in order[..i]
  }

  /** The finished nodes are exactly the order, and each comes after its dependencies. */
  predicate InOrder(g: Graph, states: map<nat, Mark>, order: seq<nat>) {
    && (forall id :: id in states && states[id].Done? ==> id in order)
    && (forall i :: 0 <= i < |order| ==> order[i] in states && states[order[i]].Done?)
    && (forall i :: 0 <= i < |order| ==> DependenciesBefore(g, order, i))
  }

  /** Marks are only added or turned to done. */
  predicate MarksKept(before: map<nat, Mark>, after: map<nat, Mark>) {
    forall id :: id in before ==> id in after && after[id] == before[id]
  }

  /** These nodes have been visited to the end. */
  predicate AllDone(ids: seq<nat>, states: map<nat, Mark>) {
    forall k :: 0 <= k < |ids| ==> ids[k] in states && states[ids[k]].Done?
  }

  lemma DoneNext(ids: seq<nat>, i: nat, before: map<nat, Mark>, after: map<nat, Mark>)
    requires i < |ids| && AllDone(ids[..i], before) && MarksKept(before, after)
    requires ids[i] in after && after[ids[i]].Done?
    ensures AllDone(ids[..i + 1], after)
  {
    forall k | 0 <= k < i ensures ids[k] in after && after[ids[k]].Done? {
      assert ids[..i][k] == ids[k];
    }
  }

  lemma PushKeeps(g: Graph, states: map<nat, Mark>, stack: seq<nat>, order: seq<nat>, id: nat)
    requires OnStack(g, states, stack) && InOrder(g, states, order) && id !in states
    requires stack != [] ==> stack[|stack| - 1] in g && id in g[stack[|stack| - 1]]
    ensures OnStack(g, states[id := Visiting], stack + [id]) && InOrder(g, states[id := Visiting], order)
  {
    var longer := stack + [id];
    forall i | 0 <= i < |longer| - 1 ensures EdgeAt(g, longer, i) {
      if i < |stack| - 1 {
        assert EdgeAt(g, stack, i);
      }
    }
  }

  lemma PopKeeps(g: Graph, states: map<nat, Mark>, stack: seq<nat>, order: seq<nat>, id: nat)
    requires OnStack(g, states, stack + [id]) && InOrder(g, states, order) && id in g
    requires forall k :: 0 <= k < |g[id]| ==> g[id][k] in states && states[g[id][k]].Done?
    ensures OnStack(g, states[id := Done], stack) && InOrder(g, states[id := Done], order + [id])
  {
    var longer, after := stack + [id], states[id := Done];
    assert longer[|stack|] == id;
    forall i | 0 <= i < |stack| - 1 ensures EdgeAt(g, stack, i) {
      assert EdgeAt(g, longer, i);
    }
    forall x | x in after && after[x].Visiting? ensures x in stack {
      assert x in longer;
    }
    forall i | 0 <= i < |stack| ensures stack[i] in after && after[stack[i]].Visiting? {
      assert longer[i] == stack[i];
    }
    forall i, j | 0 <= i < j < |stack| ensures stack[i] != stack[j] {
      assert longer[i] != longer[j];
    }
    var finished := order + [id];
    forall i | 0 <= i < |finished| ensures DependenciesBefore(g, finished, i) {
      assert finished[..i] == order[..i];
      if i < |order| {
        assert DependenciesBefore(g, order, i);
      }
    }
  }

  lemma MarksThrough(before: map<nat, Mark>, visited: map<nat, Mark>, id: nat)
    requires id !in before && MarksKept(before[id := Visiting], visited)
    ensures MarksKept(before, visited[id := Done])
  {
    forall x | x in before ensures x in visited && visited[x] == before[x] {
      assert x in before[id := Visiting];
    }
  }

  /** A dependency that is still being visited closes a cycle. */
  lemma BackEdge(g: Graph, states: map<nat, Mark>, stack: seq<nat>, id: nat) returns (cycle: seq<nat>)
    requires OnStack(g, states, stack) && id in states && states[id].Visiting?
    requires stack != [] && stack[|stack| - 1] in g && id in g[stack[|stack| - 1]]
    ensures IsCycle(g, cycle)
  {
    var k :| 0 <= k < |stack| && stack[k] == id;
    cycle := stack[k..] + [id];
    forall i | 0 <= i < |cycle| - 1 ensures EdgeAt(g, cycle, i) {
      if i < |cycle| - 2 {
        assert EdgeAt(g, stack, k + i);
      }
    }
  }

  /** The depth-first search over a graph. `stack` holds the nodes being visited, `order`
      the finished ones. */
  class Search {
    const graph: Graph
    var states: map<nat, Mark>
    ghost var stack: seq<nat>
    ghost var order: seq<nat>

    ghost predicate Valid()
      reads this
    {
      && Closed(graph) && states.Keys <= graph.Keys
      && OnStack(graph, states, stack) && InOrder(graph, states, order)
    }

    ghost function Unmarked(): nat
      reads this
    {
      |graph.Keys - states.Keys|
    }

    constructor (graph: Graph)
      requires Closed(graph)
      ensures Valid() && this.graph == graph && states == map[] && stack == [] && order == []
    {
      this.graph := graph;
      states := map[];
      stack := [];
      order := [];
    }

    /** `visit`. It terminates because every level marks another node. */
    method Visit(id: nat, ghost unmarked: nat) returns (r: Result<(), GraphError>, ghost cycle: seq<nat>)
      requires Valid() && id in graph && Unmarked() <= unmarked
      requires stack != [] ==> stack[|stack| - 1] in graph && id in graph[stack[|stack| - 1]]
      modifies this
      ensures r.Ok? ==> Valid() && stack == old(stack) && id in states && states[id].Done?
                        && MarksKept(old(states), states)
      ensures r.Err? ==> r.error.DependencyCycle? && IsCycle(graph, cycle)
      decreases unmarked, 1
    {
      cycle := [];
      if id in states {
        if states[id].Visiting? {
          cycle := BackEdge(graph, states, stack, id);
          return Err(DependencyCycle), cycle;
        }
        return Ok(()), cycle;
      }
      r, cycle := VisitUnmarked(id, unmarked);
    }

    method VisitUnmarked(id: nat, ghost unmarked: nat) returns (r: Result<(), GraphError>, ghost cycle: seq<nat>)
      requires Valid() && id in graph && id !in states && Unmarked() <= unmarked
      requires stack != [] ==> stack[|stack| - 1] in graph && id in graph[stack[|stack| - 1]]
      modifies this
      ensures r.Ok? ==> Valid() && stack == old(stack) && id in states && states[id].Done?
      ensures r.Ok? ==> MarksKept(old(states), states)
      ensures r.Err? ==> r.error.DependencyCycle? && IsCycle(graph, cycle)
      decreases unmarked, 0
    {
      ghost var below, marks := stack, states;
      Enter(id);
      r, cycle := VisitDependencies(id, unmarked - 1);
      if r.Err? { return; }
      Leave(id, below, marks);
      return Ok(()), cycle;
    }

    /** `states.insert(id, 1)`. */
    method Enter(id: nat)
      requires Valid() && id in graph && id !in states
      requires stack != [] ==> stack[|stack| - 1] in graph && id in graph[stack[|stack| - 1]]
      modifies this
      ensures Valid() && stack == old(stack) + [id] && states == old(states)[id := Visiting]
      ensures Unmarked() < old(Unmarked())
    {
      PushKeeps(graph, states, stack, order, id);
      FewerUnmarked(graph, states, states[id := Visiting], id);
      states := states[id := Visiting];
      stack := stack + [id];
    }

    /** `states.insert(id, 2)`, once every dependency is done. */
    method Leave(id: nat, ghost below: seq<nat>, ghost marks: map<nat, Mark>)
      requires Valid() && id in graph && stack == below + [id]
      requires id !in marks && MarksKept(marks[id := Visiting], states)
      requires AllDone(graph[id], states)
      modifies this
      ensures Valid() && stack == below && states == old(states)[id := Done]
      ensures MarksKept(marks, states)
    {
      PopKeeps(graph, states, below, order, id);
      MarksThrough(marks, states, id);
      states := states[id := Done];
      stack := below;
      order := order + [id];
    }

    /** The loop over the dependencies of the node on top of the stack. */
    method VisitDependencies(id: nat, ghost unmarked: nat) returns (r: Result<(), GraphError>, ghost cycle: seq<nat>)
      requires Valid() && id in graph && stack != [] && stack[|stack| - 1] == id
      requires Unmarked() <= unmarked
      modifies this
      ensures r.Ok? ==> Valid() && stack == old(stack) && MarksKept(old(states), states)
                        && AllDone(graph[id], states)
      ensures r.Err? ==> r.error.DependencyCycle? && IsCycle(graph, cycle)
      decreases unmarked, 2
    {
      cycle := [];
      var dependsOn := graph[id];
      var i := 0;
      while i < |dependsOn|
        invariant 0 <= i <= |dependsOn|
        invariant Valid() && stack == old(stack) && MarksKept(old(states), states)
        invariant AllDone(dependsOn[..i], states)
      {
        SubsetSize(graph.Keys - states.Keys, old(graph.Keys - states.Keys));
        ghost var before := states;
        r, cycle := Visit(dependsOn[i], unmarked);
        if r.Err? { return; }
        DoneNext(dependsOn, i, before, states);
        i := i + 1;
      }
      assert dependsOn[..i] == dependsOn;
      return Ok(()), cycle;
    }
  }

  lemma SubsetSize(a: set<nat>, b: set<nat>)
    requires a <= b
    ensures |a| <= |b|
  {
    if a != {} {
      var x :| x in a;
      SubsetSize(a - {x}, b - {x});
    }
  }

  lemma FewerUnmarked(g: Graph, before: map<nat, Mark>, after: map<nat, Mark>, id: nat)
    requires id in g && id !in before && after.Keys == before.Keys + {id}
    ensures |g.Keys - after.Keys| < |g.Keys - before.Keys|
  {
    assert g.Keys - after.Keys == (g.Keys - before.Keys) - {id};
  }

  /** The finishing order is a topological rank. */
  lemma OrderIsRank(g: Graph, states: map<nat, Mark>, order: seq<nat>)
    requires Closed(g) && InOrder(g, states, order)
    requires forall id :: id in g ==> id in states && states[id].Done?
    ensures Acyclic(g)
  {
    var rank := map id | id in g :: Position(order, id);
    forall id, k | id in g && 0 <= k < |g[id]| ensures rank[g[id][k]] < rank[id] {
      var i := rank[id];
      assert DependenciesBefore(g, order, i);
      assert g[order[i]][k] in order[..i];
      PositionIsFirst(order, g[id][k], i);
    }
    assert IsRank(g, rank);
  }

  lemma PositionIsFirst(order: seq<nat>, id: nat, i: nat)
    requires i <= |order| && id in order[..i]
    ensures Position(order, id) < i
  {
    if order[0] != id {
      assert order[1..][..i - 1] == order[..i][1..];
      PositionIsFirst(order[1..], id, i - 1);
    }
  }

  function Position(order: seq<nat>, id: nat): (i: nat)
    requires id in order
    ensures i < |order| && order[i] == id
  {
    if order[0] == id then 0 else 1 + Position(order[1..], id)
  }

  predicate WellFormed(nodes: seq<Node>) {
    DistinctIds(nodes) && Closed(GraphOf(nodes))
  }

  predicate IdBefore(nodes: seq<Node>, i: nat)
    requires i < |nodes|
  {
    exists j :: 0 <= j < i && nodes[j].id == nodes[i].id
  }

  lemma DistinctStep(nodes: seq<Node>, i: nat)
    requires i < |nodes| && DistinctIds(nodes[..i])
    ensures DistinctIds(nodes[..i + 1]) <==> nodes[i].id != 0 && !IdBefore(nodes, i)
  {
    var prefix, longer := nodes[..i], nodes[..i + 1];
    assert forall k :: 0 <= k < i ==> prefix[k] == nodes[k] && longer[k] == nodes[k];
    assert longer[i] == nodes[i];
  }

  lemma IndexStep(nodes: seq<Node>, i: nat)
    requires i < |nodes| && DistinctIds(nodes[..i])
    ensures GraphOf(nodes[..i + 1]) == GraphOf(nodes[..i])[nodes[i].id := nodes[i].dependsOn]
    ensures DistinctIds(nodes[..i + 1]) <==> nodes[i].id != 0 && nodes[i].id !in GraphOf(nodes[..i])
  {
    assert nodes[..i + 1][..i] == nodes[..i];
    DistinctStep(nodes, i);
    assert IdBefore(nodes, i) <==> nodes[i].id in GraphOf(nodes[..i]) by {
      assert forall k :: 0 <= k < i ==> nodes[..i][k] == nodes[k];
    }
  }

  lemma DistinctPrefix(nodes: seq<Node>, i: nat)
    requires i <= |nodes| && !DistinctIds(nodes[..i])
    ensures !DistinctIds(nodes)
  {
    assert forall k :: 0 <= k < i ==> nodes[..i][k] == nodes[k];
  }

  /** The map indexes the first nodes, which have distinct nonzero IDs. */
  predicate Indexed(nodes: seq<Node>, i: nat, byId: Graph) {
    i <= |nodes| && DistinctIds(nodes[..i]) && byId == GraphOf(nodes[..i])
  }

  lemma IndexedNext(nodes: seq<Node>, i: nat, byId: Graph)
    requires Indexed(nodes, i, byId) && i < |nodes|
    ensures nodes[i].id == 0 || nodes[i].id in byId ==> !DistinctIds(nodes)
    ensures nodes[i].id != 0 && nodes[i].id !in byId ==>
              Indexed(nodes, i + 1, byId[nodes[i].id := nodes[i].dependsOn])
  {
    IndexStep(nodes, i);
    if nodes[i].id == 0 || nodes[i].id in byId {
      DistinctPrefix(nodes, i + 1);
    }
  }

  /** The map from IDs to steps, refusing zero and repeated IDs. */
  method IndexById(nodes: seq<Node>) returns (r: Result<Graph, GraphError>)
    ensures r.Ok? <==> DistinctIds(nodes)
    ensures r.Ok? ==> r.value == GraphOf(nodes)
    ensures r.Err? ==> !r.error.DependencyCycle?
  {
    var byId: Graph := map[];
    var i := 0;
    while i < |nodes|
      invariant Indexed(nodes, i, byId)
    {
      var node := nodes[i];
      IndexedNext(nodes, i, byId);
      if node.id == 0 || node.id in byId {
        return Err(if node.id == 0 then ZeroStepId else DuplicateStepId(node.id));
      }
      byId := byId[node.id := node.dependsOn];
      i := i + 1;
    }
    assert nodes[..i] == nodes;
    return Ok(byId);
  }

  predicate NodeClosed(g: Graph, node: Node) {
    forall k :: 0 <= k < |node.dependsOn| ==> node.dependsOn[k] in g && node.dependsOn[k] != node.id
  }

  lemma ClosedByNodes(nodes: seq<Node>)
    requires DistinctIds(nodes)
    ensures Closed(GraphOf(nodes)) <==> forall i :: 0 <= i < |nodes| ==> NodeClosed(GraphOf(nodes), nodes[i])
  {
    var g := GraphOf(nodes);
    if Closed(g) {
      forall i | 0 <= i < |nodes| ensures NodeClosed(g, nodes[i]) {
        assert g[nodes[i].id] == nodes[i].dependsOn;
      }
    }
    if forall i :: 0 <= i < |nodes| ==> NodeClosed(g, nodes[i]) {
      forall id, k | id in g && 0 <= k < |g[id]| ensures g[id][k] in g && g[id][k] != id {
        var i :| 0 <= i < |nodes| && nodes[i].id == id;
        assert NodeClosed(g, nodes[i]) && g[nodes[i].id] == nodes[i].dependsOn;
      }
    }
  }

  /** Every dependency must be another step. */
  method CheckDependencies(nodes: seq<Node>, byId: Graph) returns (r: Result<(), GraphError>)
    ensures r.Ok? <==> forall i :: 0 <= i < |nodes| ==> NodeClosed(byId, nodes[i])
    ensures r.Err? ==> !r.error.DependencyCycle?
  {
    var i := 0;
    while i < |nodes|
      invariant 0 <= i <= |nodes|
      invariant forall m :: 0 <= m < i ==> NodeClosed(byId, nodes[m])
    {
      var node := nodes[i];
      var k := 0;
      while k < |node.dependsOn|
        invariant 0 <= k <= |node.dependsOn|
        invariant forall j :: 0 <= j < k ==> node.dependsOn[j] in byId && node.dependsOn[j] != node.id
      {
        var dependency := node.dependsOn[k];
        if dependency == node.id {
          assert !NodeClosed(byId, nodes[i]);
          return Err(SelfDependency(node.id));
        }
        if dependency !in byId {
          assert !NodeClosed(byId, nodes[i]);
          return Err(UnknownDependency(node.id, dependency));
        }
        k := k + 1;
      }
      i := i + 1;
    }
    return Ok(());
  }

  /** Visit every node. */
  method SearchAll(byId: Graph) returns (r: Result<(), GraphError>, ghost cycle: seq<nat>)
    requires Closed(byId)
    ensures r.Ok? <==> Acyclic(byId)
    ensures r.Err? ==> r.error.DependencyCycle? && IsCycle(byId, cycle)
  {
    cycle := [];
    var search := new Search(byId);
    var remaining := byId.Keys;
    while remaining != {}
      invariant remaining <= byId.Keys && search.Valid() && search.graph == byId && search.stack == []
      invariant forall id :: id in byId && id !in remaining ==> id in search.states && search.states[id].Done?
      decreases remaining
    {
      var id :| id in remaining;
      remaining := remaining - {id};
      r, cycle := search.Visit(id, search.Unmarked());
      if r.Err? {
        CycleHasNoRank(byId, cycle);
        return;
      }
    }
    OrderIsRank(byId, search.states, search.order);
    return Ok(()), cycle;
  }

  /** Validation is exact: it succeeds if and only if IDs are nonzero and distinct, every
      dependency is another step, and the graph has a topological rank. A reported cycle is
      a real one. */
  method ValidateDependencyGraph(nodes: seq<Node>) returns (r: Result<(), GraphError>, ghost cycle: seq<nat>)
    ensures r.Ok? <==> WellFormed(nodes) && Acyclic(GraphOf(nodes))
    ensures r == Err(DependencyCycle) ==> WellFormed(nodes) && IsCycle(GraphOf(nodes), cycle)
    ensures r.Err? && !r.error.DependencyCycle? ==> !WellFormed(nodes)
  {
    cycle := [];
    var indexed := IndexById(nodes);
    if indexed.Err? { return Err(indexed.error), cycle; }
    ClosedByNodes(nodes);
    r := CheckDependencies(nodes, indexed.value);
    if r.Err? { return; }
    r, cycle := SearchAll(indexed.value);
  }
}
