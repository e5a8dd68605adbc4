/** Sealing a task graph with declared effects (src/core/task_graph.cpp, `TaskGraphBuilder::seal`): here an edge is
    added for every conflicting pair, whether or not it is ordered already. */
module TaskGraphs {
  import opened Ir
  import opened Wrappers
  import opened EffectConflicts
  import opened Digraph
  import opened EffectGraphs
  import opened ExecutionPlans

  /** Conflicting tasks, lower index first. */
  ghost predicate Hazard(effects: seq<seq<Effect>>, p: Edge) {
    p.0 < p.1 < |effects| && TasksConflict(effects[p.0], effects[p.1])
  }

  /** The inferred edges: the conflicting pairs, each once, in ascending order, before `next`. */
  ghost predicate HazardsBefore(effects: seq<seq<Effect>>, inferred: seq<EffectEdge>, next: Edge) {
    && Ascending(inferred)
    && (forall e | e in inferred :: e.kind.InferredConflict? && e.timelineValue == 0)
    && (forall p :: p in AllPairs(inferred) <==> Hazard(effects, p) && LexicographicallyLess(p, next))
  }

  ghost predicate SealedExact(dependencies: seq<Dependency>, effects: seq<seq<Effect>>, edges: seq<EffectEdge>) {
    && |dependencies| <= |edges| && edges[..|dependencies|] == ExplicitEdges(dependencies)
    && HazardsBefore(effects, edges[|dependencies|..], (|effects|, 0))
  }

  ghost predicate Dependable(dependencies: seq<Dependency>, count: nat) {
    forall d | d in dependencies :: d.0 < count && d.1 < count && d.0 != d.1
  }

  lemma HazardStep(effects: seq<seq<Effect>>, inferred: seq<EffectEdge>, left: nat, right: nat, hazard: bool)
    requires left < right < |effects| && HazardsBefore(effects, inferred, (left, right))
    requires hazard <==> TasksConflict(effects[left], effects[right])
    ensures HazardsBefore(effects, if hazard then inferred + [EffectEdge(left, right, InferredConflict, 0)] else inferred, (left, right + 1))
  {
    var edge := EffectEdge(left, right, InferredConflict, 0);
    AllPairsAppend(inferred, edge);
    forall e | e in inferred ensures LexicographicallyLess((e.before, e.after), (left, right)) {
      assert (e.before, e.after) in AllPairs(inferred);
    }
  }

  lemma HazardRowDone(effects: seq<seq<Effect>>, inferred: seq<EffectEdge>, left: nat)
    requires left < |effects| && HazardsBefore(effects, inferred, (left, |effects|))
    ensures HazardsBefore(effects, inferred, (left + 1, left + 2)) && HazardsBefore(effects, inferred, (left + 1, 0))
  {}

  /** The explicit edges, then one edge per conflicting pair. */
  method AddHazards(effects: seq<seq<Effect>>, graph: EffectGraph) returns (ghost inferred: seq<EffectEdge>)
    modifies graph
    ensures graph.edges == old(graph.edges) + inferred && HazardsBefore(effects, inferred, (|effects|, 0))
  {
    inferred := [];
    for left := 0 to |effects|
      invariant graph.edges == old(graph.edges) + inferred
      invariant HazardsBefore(effects, inferred, (left, 0)) && HazardsBefore(effects, inferred, (left, left + 1))
    {
      inferred := AddHazardRow(effects, left, graph, inferred, old(graph.edges));
    }
  }

  method AddHazardRow(
    effects: seq<seq<Effect>>, left: nat, graph: EffectGraph, ghost inferred: seq<EffectEdge>, ghost declared: seq<EffectEdge>)
    returns (ghost inferred': seq<EffectEdge>)
    requires left < |effects| && graph.edges == declared + inferred && HazardsBefore(effects, inferred, (left, left + 1))
    modifies graph
    ensures graph.edges == declared + inferred'
    ensures HazardsBefore(effects, inferred', (left + 1, 0)) && HazardsBefore(effects, inferred', (left + 1, left + 2))
  {
    inferred' := inferred;
    for right := left + 1 to |effects|
      invariant graph.edges == declared + inferred' && HazardsBefore(effects, inferred', (left, right))
    {
      var hazard := ScanForConflict(effects[left], effects[right]);
      HazardStep(effects, inferred', left, right, hazard);
      if hazard {
        var added := graph.AddEdge(left, right, InferredConflict, 0);
        inferred' := inferred' + [EffectEdge(left, right, InferredConflict, 0)];
      }
    }
    HazardRowDone(effects, inferred', left);
  }

  lemma SealedOrdersConflicts(dependencies: seq<Dependency>, effects: seq<seq<Effect>>, edges: seq<EffectEdge>)
    requires SealedExact(dependencies, effects, edges) && Dependable(dependencies, |effects|)
    ensures ConflictsOrdered(AllPairs(edges), effects) && InRange(AllPairs(edges), |effects|)
    ensures forall p :: p in AllPairs(edges) <==> p in DependencyPairs(dependencies) || Hazard(effects, p)
  {
    var inferred := edges[|dependencies|..];
    assert edges == edges[..|dependencies|] + inferred;
    AppendSplits(edges[..|dependencies|], inferred);
    ExplicitEdgePairs(dependencies);
    forall a: nat, b: nat | a < b < |effects| && TasksConflict(effects[a], effects[b]) ensures Ordered(AllPairs(edges), a, b) {
      assert Hazard(effects, (a, b));
      ReachesStep(AllPairs(edges), a, a, b);
    }
  }

  /** Sealing succeeds exactly when the dependencies together with all conflicting pairs, lower index first, are
      acyclic; so a dependency from a higher to a lower conflicting task is always refused.  The graph's dependencies
      are then rebuilt from all its edges, inferred ones included. */
  method SealTaskGraph(dependencies: seq<Dependency>, effects: seq<seq<Effect>>)
    returns (graph: Option<EffectGraph>, rebuilt: seq<Dependency>)
    requires Dependable(dependencies, |effects|)
    ensures graph.Some? ==> rebuilt == Rebuilt(graph.value.edges)
    ensures graph.Some? ==> fresh(graph.value) && SealedExact(dependencies, effects, graph.value.edges)
    ensures graph.Some? ==> ConflictsOrdered(AllPairs(graph.value.edges), effects)
    ensures graph.Some? <==>
              Acyclic(DependencyPairs(dependencies) + AllHazards(effects))
  {
    var sealed := new EffectGraph();
    for i := 0 to |dependencies|
      invariant fresh(sealed) && sealed.edges == ExplicitEdges(dependencies[..i])
    {
      assert dependencies[i] in dependencies;
      assert dependencies[..i + 1] == dependencies[..i] + [dependencies[i]];
      var added := sealed.AddEdge(dependencies[i].0, dependencies[i].1, Explicit, 0);
    }
    assert dependencies[..|dependencies|] == dependencies;
    ghost var inferred := AddHazards(effects, sealed);
    assert sealed.edges[..|dependencies|] == ExplicitEdges(dependencies);
    assert sealed.edges[|dependencies|..] == inferred;
    SealedOrdersConflicts(dependencies, effects, sealed.edges);
    assert AllPairs(sealed.edges) == DependencyPairs(dependencies) + AllHazards(effects);
    var valid := sealed.Valid();
    if !valid {
      return None, [];
    }
    var ordered := sealed.ValidateHappensBefore(effects);
    if !ordered {
      return None, [];
    }
    rebuilt := [];
    for i := 0 to |sealed.edges|
      invariant rebuilt == Rebuilt(sealed.edges[..i])
    {
      rebuilt := rebuilt + [PairOf(sealed.edges[i])];
    }
    assert sealed.edges[..|sealed.edges|] == sealed.edges;
    graph := Some(sealed);
  }

  /** The dependencies of a sealed graph: every edge, in order, duplicates included. */
  function Rebuilt(edges: seq<EffectEdge>): (r: seq<Dependency>)
    ensures |r| == |edges| && forall k | 0 <= k < |r| :: r[k] == PairOf(edges[k])
  {
    seq(|edges|, k requires 0 <= k < |edges| => PairOf(edges[k]))
  }

  lemma RebuiltPairs(edges: seq<EffectEdge>)
    ensures DependencyPairs(Rebuilt(edges)) == AllPairs(edges)
  {
    forall p | p in AllPairs(edges) ensures p in DependencyPairs(Rebuilt(edges)) {
      var e :| e in edges && PairOf(e) == p;
      var k :| 0 <= k < |edges| && edges[k] == e;
      assert Rebuilt(edges)[k] == p;
    }
    forall p | p in DependencyPairs(Rebuilt(edges)) ensures p in AllPairs(edges) {
      var k :| 0 <= k < |edges| && Rebuilt(edges)[k] == p;
      assert edges[k] in edges;
    }
  }

  ghost function AllHazards(effects: seq<seq<Effect>>): set<Edge> {
    set a: nat, b: nat | a < b < |effects| && TasksConflict(effects[a], effects[b]) :: (a, b)
  }

  /** A dependency from the higher to the lower of two conflicting tasks is always refused. */
  lemma BackwardDependencyRefused(dependencies: seq<Dependency>, effects: seq<seq<Effect>>, p: Edge)
    requires Hazard(effects, p) && (p.1, p.0) in dependencies
    ensures !Acyclic(DependencyPairs(dependencies) + AllHazards(effects))
  {
    var edges := DependencyPairs(dependencies) + AllHazards(effects);
    assert p == (p.0, p.1) && p in edges && (p.1, p.0) in edges;
    ReachesStep(edges, p.1, p.1, p.0);
  }

  function PairOf(e: EffectEdge): Edge {
    (e.before, e.after)
  }

  /** A dependency between conflicting tasks, lower index first, is sealed twice. */
  lemma DependencyRepeated(dependencies: seq<Dependency>, effects: seq<seq<Effect>>, edges: seq<EffectEdge>, d: Dependency)
    returns (i: nat, j: nat)
    requires SealedExact(dependencies, effects, edges) && d in dependencies && Hazard(effects, d)
    ensures i < j < |edges| && PairOf(edges[i]) == PairOf(edges[j]) == d
  {
    var n := |dependencies|;
    var inferred := edges[n..];
    i :| 0 <= i < n && dependencies[i] == d;
    assert edges[..n][i] == ExplicitEdges(dependencies)[i];
    assert d in AllPairs(inferred);
    var e :| e in inferred && PairOf(e) == d;
    var k :| 0 <= k < |inferred| && inferred[k] == e;
    j := n + k;
  }

  lemma EdgesDiffer(dependencies: seq<Dependency>, effects: seq<seq<Effect>>, edges: seq<EffectEdge>, i: nat, j: nat)
    requires SealedExact(dependencies, effects, edges) && i < j < |edges|
    requires forall k, m | 0 <= k < m < |dependencies| :: dependencies[k] != dependencies[m]
    requires forall d | d in dependencies :: !Hazard(effects, d)
    ensures PairOf(edges[i]) != PairOf(edges[j])
  {
    var n := |dependencies|;
    var inferred := edges[n..];
    if i < n {
      assert edges[..n][i] == ExplicitEdges(dependencies)[i];
      assert dependencies[i] in dependencies;
      if j < n {
        assert edges[..n][j] == ExplicitEdges(dependencies)[j];
      } else {
        assert inferred[j - n] in inferred && PairOf(inferred[j - n]) in AllPairs(inferred);
        assert Hazard(effects, PairOf(edges[j]));
      }
    } else {
      assert LexicographicallyLess(PairOf(inferred[i - n]), PairOf(inferred[j - n]));
    }
  }

  /** The sealed edges repeat an edge exactly when a dependency is declared twice or joins two conflicting tasks, lower
      index first.  Schedule derivation refuses such a graph, so those are the sealed graphs it can never accept. */
  lemma SealDuplicatesExactly(dependencies: seq<Dependency>, effects: seq<seq<Effect>>, edges: seq<EffectEdge>)
    requires SealedExact(dependencies, effects, edges)
    ensures (forall i, j | 0 <= i < j < |edges| :: PairOf(edges[i]) != PairOf(edges[j])) <==>
            && (forall i, j | 0 <= i < j < |dependencies| :: dependencies[i] != dependencies[j])
            && (forall d | d in dependencies :: !Hazard(effects, d))
  {
    forall i | 0 <= i < |dependencies| ensures PairOf(edges[i]) == dependencies[i] {
      assert edges[..|dependencies|][i] == ExplicitEdges(dependencies)[i];
    }
    if d :| d in dependencies && Hazard(effects, d) {
      var i, j := DependencyRepeated(dependencies, effects, edges, d);
    } else if forall i, j | 0 <= i < j < |dependencies| :: dependencies[i] != dependencies[j] {
      forall i, j | 0 <= i < j < |edges| ensures PairOf(edges[i]) != PairOf(edges[j]) {
        EdgesDiffer(dependencies, effects, edges, i, j);
      }
    } else {
      var i, j :| 0 <= i < j < |dependencies| && dependencies[i] == dependencies[j];
      assert PairOf(edges[i]) == PairOf(edges[j]);
    }
  }
}
