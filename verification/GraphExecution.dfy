/** Executing a task graph as the reference oracle does (src/core/task_graph.cpp, `TaskGraph::deterministic_order`;
    src/backends/reference/reference_executor.cpp, `execute_task_graph`). */
module GraphExecution {
  import opened Ir
  import opened Wrappers
  import opened EffectConflicts
  import opened Digraph
  import opened EffectGraphs
  import opened ExecutionPlans
  import opened CanonicalOrder
  import opened TaskGraphs
  import opened PublicationRings

  lemma ExplicitStructural(dependencies: seq<Dependency>)
    ensures StructuralPairs(ExplicitEdges(dependencies)) == DependencyPairs(dependencies)
  {
    ExplicitEdgePairs(dependencies);
    assert StructuralPairs(ExplicitEdges(dependencies)) == AllPairs(ExplicitEdges(dependencies));
  }

  /** The ready-list loop over a graph's dependencies, however often each is listed. */
  method GraphOrder(dependencies: seq<Dependency>, count: nat) returns (r: Option<seq<nat>>)
    requires Dependable(dependencies, count)
    ensures r.Some? <==> Acyclic(DependencyPairs(dependencies))
    ensures r.Some? ==> IsCanonical(DependencyPairs(dependencies), count, r.value)
  {
    ExplicitStructural(dependencies);
    r := DeterministicOrder(ExplicitEdges(dependencies), count);
  }

  /** Publishes the tasks through a ring of their number, in the canonical order of the dependencies. */
  method ExecuteTaskGraph(tasks: seq<Task>, dependencies: seq<Dependency>, isPublished: bool)
    returns (ok: bool, published: seq<Task>, ghost order: seq<nat>)
    requires |tasks| < TWO32 && Dependable(dependencies, |tasks|)
    ensures ok <==>
              && isPublished && (forall t | t in tasks :: t.WellFormed())
              && Acyclic(DependencyPairs(dependencies)) && |tasks| <= 0x8000_0000
    ensures ok ==> IsCanonical(DependencyPairs(dependencies), |tasks|, order)
    ensures ok ==> |published| == |order| && forall k | 0 <= k < |order| :: published[k] == tasks[order[k]]
  {
    published, order := [], [];
    if !isPublished || exists t | t in tasks :: !t.WellFormed() {
      return false, [], [];
    }
    var ranked := GraphOrder(dependencies, |tasks|);
    if ranked.None? {
      return false, [], [];
    }
    order := ranked.value;
    ok, published := PublishInOrder(tasks, ranked.value);
  }

  /** Sealing, publishing and executing: what can fail is the sealing, a task with a zero generation and a graph of more
      than 2^31 tasks.  The tasks come out in the canonical order of the dependencies and all conflicting pairs, the
      repeated edges notwithstanding, so of two conflicting tasks the one of lower index always comes first. */
  method ExecuteSealed(tasks: seq<Task>, dependencies: seq<Dependency>, effects: seq<seq<Effect>>)
    returns (sealed: bool, ok: bool, published: seq<Task>, ghost order: seq<nat>)
    requires |effects| == |tasks| < TWO32 && Dependable(dependencies, |tasks|)
    ensures sealed <==> Acyclic(DependencyPairs(dependencies) + AllHazards(effects))
    ensures ok <==> sealed && (forall t | t in tasks :: t.WellFormed()) && |tasks| <= 0x8000_0000
    ensures ok ==> IsCanonical(DependencyPairs(dependencies) + AllHazards(effects), |tasks|, order)
    ensures ok ==> |published| == |order| && forall k | 0 <= k < |order| :: published[k] == tasks[order[k]]
    ensures ok ==> forall i, j | 0 <= i < j < |order| :: !Hazard(effects, (order[j], order[i]))
  {
    var graph, rebuilt := SealTaskGraph(dependencies, effects);
    if graph.None? {
      return false, false, [], [];
    }
    sealed := true;
    var edges := graph.value.edges;
    RebuiltPairs(edges);
    SealedOrdersConflicts(dependencies, effects, edges);
    assert AllPairs(edges) == DependencyPairs(dependencies) + AllHazards(effects);
    RebuiltDependable(dependencies, effects, edges);
    ok, published, order := ExecuteTaskGraph(tasks, rebuilt, true);
    if ok {
      GreedyRespects(AllPairs(edges), |tasks|, order);
    }
  }

  lemma RebuiltDependable(dependencies: seq<Dependency>, effects: seq<seq<Effect>>, edges: seq<EffectEdge>)
    requires SealedExact(dependencies, effects, edges) && Dependable(dependencies, |effects|)
    ensures Dependable(Rebuilt(edges), |effects|)
  {
    RebuiltPairs(edges);
    SealedOrdersConflicts(dependencies, effects, edges);
    forall d | d in Rebuilt(edges) ensures d.0 < |effects| && d.1 < |effects| && d.0 != d.1 {
      assert d in DependencyPairs(Rebuilt(edges));
    }
  }
}
