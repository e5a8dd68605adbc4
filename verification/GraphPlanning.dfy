/** Planning a graph that the task-graph builder sealed: its rebuilt dependencies are what the plan reads
    (src/core/task_graph.cpp, `TaskGraphBuilder::seal`; src/core/execution_plan.cpp). */
module GraphPlanning {
  import opened Ir
  import opened Arenas
  import opened ArenaStore
  import opened Wrappers
  import opened EffectConflicts
  import opened Digraph
  import opened EffectGraphs
  import opened ExecutionPlans
  import opened TaskGraphs
  import opened Transitions
  import opened Materialization

  /** No dependency is declared twice, and none joins two conflicting tasks, lower index first. */
  ghost predicate Unhazarded(dependencies: seq<Dependency>, effects: seq<seq<Effect>>) {
    DistinctDependencies(dependencies) && forall d | d in dependencies :: !Hazard(effects, d)
  }

  lemma RebuiltDistinct(dependencies: seq<Dependency>, effects: seq<seq<Effect>>, edges: seq<EffectEdge>)
    requires SealedExact(dependencies, effects, edges)
    ensures DistinctDependencies(Rebuilt(edges)) <==> Unhazarded(dependencies, effects)
  {
    SealDuplicatesExactly(dependencies, effects, edges);
    var rebuilt := Rebuilt(edges);
    assert DistinctDependencies(rebuilt) <==> forall i, j | 0 <= i < j < |edges| :: PairOf(edges[i]) != PairOf(edges[j]) by {
      if DistinctDependencies(rebuilt) {
        forall i, j | 0 <= i < j < |edges| ensures PairOf(edges[i]) != PairOf(edges[j]) {
          assert rebuilt[i] != rebuilt[j];
        }
      }
    }
  }

  /** A sealed graph can be planned exactly when its tasks are admissible, its declared dependencies are distinct and
      none of them is a hazard. */
  lemma PlannableExactly(
    memory: Allocations, modules: seq<Module>, roots: seq<PointerRef>, certificate: Option<seq<Effect>>,
    dependencies: seq<Dependency>, effects: seq<seq<Effect>>, edges: seq<EffectEdge>)
    requires |effects| == |modules| && Dependable(dependencies, |effects|)
    requires SealedExact(dependencies, effects, edges) && Acyclic(DependencyPairs(dependencies) + AllHazards(effects))
    ensures Materializable(memory, modules, roots, Rebuilt(edges), certificate) <==>
            Admissible(memory, modules, roots, certificate) && Unhazarded(dependencies, effects)
  {
    RebuiltPairs(edges);
    SealedOrdersConflicts(dependencies, effects, edges);
    assert AllPairs(edges) == DependencyPairs(dependencies) + AllHazards(effects);
    RebuiltDistinct(dependencies, effects, edges);
  }

  /** Seals a graph and plans what was sealed.  The two stages are given the declared and the instantiated effects
      respectively. */
  method SealAndPlan(
    dependencies: seq<Dependency>, effects: seq<seq<Effect>>, modules: seq<Module>, roots: seq<PointerRef>,
    certificate: Option<seq<Effect>>, facts: seq<RepresentationFact>, arena: Arena)
    returns (sealed: bool, plan: Option<SealedPlan>)
    requires |effects| == |modules| == |roots| && Dependable(dependencies, |effects|)
    ensures sealed <==> Acyclic(DependencyPairs(dependencies) + AllHazards(effects))
    ensures plan.Some? <==> sealed && Admissible(arena.allocations, modules, roots, certificate) && Unhazarded(dependencies, effects)
  {
    var graph, rebuilt := SealTaskGraph(dependencies, effects);
    if graph.None? {
      return false, None;
    }
    PlannableExactly(arena.allocations, modules, roots, certificate, dependencies, effects, graph.value.edges);
    plan := SealPlan(modules, roots, rebuilt, certificate, facts, arena);
    sealed := true;
  }

  // ------------------------------------------------------------ a graph that is sealed and cannot be planned

  /** One byte of allocation 7. */
  const ONE_BYTE := Effect(7, 0, 1, Write, 0)

  const WRITER := Module(
    1, "root", [Instruction(Store, 7, 0, 1, 0, 1, 0, 0, "")], [ONE_BYTE], [])

  lemma WriterVerifies()
    ensures Verified(WRITER) && InstantiatedEffects(WRITER) == [ONE_BYTE]
  {
    var i := WRITER.instructions[0];
    CoversItself(ONE_BYTE);
    assert i.AsEffect() == ONE_BYTE && ONE_BYTE in WRITER.declaredEffects;
    assert Declared(WRITER, ONE_BYTE);
    assert WellFormedInstruction(WRITER, 0);
    assert WRITER.instructions[..0] == [];
    assert DirectEffects(WRITER.instructions[..0]) == [] && ViaEffects(WRITER.instructions[..0]) == [];
    assert DirectEffects(WRITER.instructions) == [ONE_BYTE] && ViaEffects(WRITER.instructions) == [];
  }

  /** Two tasks that write the same byte, the first declared before the second: with allocation 7 active everything
      about them is admissible, and planning the bare dependency would succeed; the builder seals the graph; but the
      sealed graph cannot be planned, whatever the certificate. */
  lemma SealedButNotPlannable(memory: Allocations, edges: seq<EffectEdge>, certificate: Option<seq<Effect>>)
    requires Live(memory, PointerRef(7, 1)) && SealedExact([(0, 1)], [[ONE_BYTE], [ONE_BYTE]], edges)
    ensures var modules, roots := [WRITER, WRITER], [PointerRef(7, 1), PointerRef(7, 1)];
            && Acyclic(DependencyPairs([(0, 1)]) + AllHazards([[ONE_BYTE], [ONE_BYTE]]))
            && Materializable(memory, modules, roots, [(0, 1)], None)
            && !Materializable(memory, modules, roots, Rebuilt(edges), certificate)
  {
    var modules, roots := [WRITER, WRITER], [PointerRef(7, 1), PointerRef(7, 1)];
    var dependencies: seq<Dependency>, effects := [(0, 1)], [[ONE_BYTE], [ONE_BYTE]];
    WriterVerifies();
    assert TasksConflict(effects[0], effects[1]) by {
      assert Conflicts(effects[0][0], effects[1][0]);
    }
    assert Hazard(effects, (0, 1)) && (0, 1) in dependencies;
    assert dependencies[0] == (0, 1);
    assert DependencyPairs(dependencies) == {(0, 1)};
    OneEdgeIsAcyclic();
    forall p | p in AllHazards(effects) ensures p == (0, 1) {}
    assert DependencyPairs(dependencies) + AllHazards(effects) == {(0, 1)};
    PlannableExactly(memory, modules, roots, certificate, dependencies, effects, edges);
  }

  lemma OneEdgeIsAcyclic()
    ensures Acyclic({(0, 1)})
  {
    var s: iset<nat> := iset{1};
    assert Closed({(0, 1)}, s) && 1 in s && 0 !in s;
  }
}
