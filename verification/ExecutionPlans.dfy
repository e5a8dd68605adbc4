/** Reconciling a task graph's declared dependencies with the tasks' effects
    (src/core/execution_plan.cpp). */
module ExecutionPlans {
  import opened Ir
  import opened EffectConflicts
  import opened Digraph
  import opened Adjacency
  import opened EffectGraphs
  import opened Wrappers

  type Dependency = (nat, nat)

  function DependencyPairs(dependencies: seq<Dependency>): Edges {
    set d | d in dependencies
  }

  function ExplicitEdges(dependencies: seq<Dependency>): (r: seq<EffectEdge>)
    ensures |r| == |dependencies|
  {
    seq(|dependencies|, k requires 0 <= k < |dependencies| =>
      EffectEdge(dependencies[k].0, dependencies[k].1, Explicit, 0))
  }

  lemma ExplicitEdgePairs(dependencies: seq<Dependency>)
    ensures AllPairs(ExplicitEdges(dependencies)) == DependencyPairs(dependencies)
  {
    var edges := ExplicitEdges(dependencies);
    forall p | p in DependencyPairs(dependencies) ensures p in AllPairs(edges) {
      var k :| 0 <= k < |dependencies| && dependencies[k] == p;
      assert edges[k] in edges;
    }
  }

  predicate LexicographicallyLess(p: Edge, q: Edge) {
    p.0 < q.0 || (p.0 == q.0 && p.1 < q.1)
  }

  /** The edges that were present when the pair `p` was examined. */
  ghost function PresentAt(explicit: Edges, inferred: Edges, p: Edge): Edges {
    explicit + set q | q in inferred && LexicographicallyLess(q, p)
  }

  /** A pair is inferred exactly when it conflicts and nothing present ordered it. */
  ghost predicate InferredWhenUnordered(explicit: Edges, inferred: Edges, effects: seq<seq<Effect>>, p: Edge) {
    p.0 < |effects| && p.1 < |effects| &&
    (p in inferred <==>
       TasksConflict(effects[p.0], effects[p.1]) && !Ordered(PresentAt(explicit, inferred, p), p.0, p.1))
  }

  ghost predicate Ascending(edges: seq<EffectEdge>) {
    forall i, j | 0 <= i < j < |edges| ::
      LexicographicallyLess((edges[i].before, edges[i].after), (edges[j].before, edges[j].after))
  }

  /** What a successful reconciliation returns: the declared edges unchanged, then one edge,
      from lower to higher task, for each conflicting pair that was still unordered. */
  ghost predicate Reconciled(dependencies: seq<Dependency>, effects: seq<seq<Effect>>, edges: seq<EffectEdge>) {
    && |dependencies| <= |edges|
    && edges[..|dependencies|] == ExplicitEdges(dependencies)
    && var inferred := edges[|dependencies|..];
       && Ascending(inferred)
       && (forall e | e in inferred ::
             e.kind.InferredConflict? && e.timelineValue == 0 && e.before < e.after < |effects|)
       && (forall l: nat, r: nat | l < r < |effects| ::
             InferredWhenUnordered(DependencyPairs(dependencies), AllPairs(inferred), effects, (l, r)))
  }

  lemma PresentUnaffected(explicit: Edges, inferred: Edges, p: Edge, q: Edge)
    requires !LexicographicallyLess(q, p)
    ensures PresentAt(explicit, inferred + {q}, p) == PresentAt(explicit, inferred, p)
  {}

  lemma PresentIsAll(explicit: Edges, inferred: Edges, p: Edge)
    requires forall q | q in inferred :: LexicographicallyLess(q, p)
    ensures PresentAt(explicit, inferred, p) == explicit + inferred
  {}

  lemma OrderedMonotone(small: Edges, large: Edges, a: nat, b: nat)
    requires small <= large && Ordered(small, a, b)
    ensures Ordered(large, a, b)
  {
    if Reaches(small, a, b) {
      ReachesMonotone(small, large, a, b);
    } else {
      ReachesMonotone(small, large, b, a);
    }
  }

  lemma AppendSplits(a: seq<EffectEdge>, b: seq<EffectEdge>)
    ensures AllPairs(a + b) == AllPairs(a) + AllPairs(b)
  {
    forall p | p in AllPairs(a) + AllPairs(b) ensures p in AllPairs(a + b) {
      if p in AllPairs(a) {
        var e :| e in a && (e.before, e.after) == p;
        assert e in a + b;
      } else {
        var e :| e in b && (e.before, e.after) == p;
        assert e in a + b;
      }
    }
  }

  lemma ReconciledOrdersConflicts(dependencies: seq<Dependency>, effects: seq<seq<Effect>>, edges: seq<EffectEdge>)
    requires Reconciled(dependencies, effects, edges)
    ensures ConflictsOrdered(AllPairs(edges), effects)
    ensures InRange(DependencyPairs(dependencies), |effects|) ==> InRange(AllPairs(edges), |effects|)
  {
    var explicit, inferred := DependencyPairs(dependencies), edges[|dependencies|..];
    assert edges == edges[..|dependencies|] + inferred;
    AppendSplits(edges[..|dependencies|], inferred);
    ExplicitEdgePairs(dependencies);
    forall a: nat, b: nat | a < b < |effects| && TasksConflict(effects[a], effects[b])
      ensures Ordered(AllPairs(edges), a, b)
    {
      var p := (a, b);
      assert InferredWhenUnordered(explicit, AllPairs(inferred), effects, p);
      if p in AllPairs(inferred) {
        ReachesStep(AllPairs(edges), a, a, b);
      } else {
        OrderedMonotone(PresentAt(explicit, AllPairs(inferred), p), AllPairs(edges), a, b);
      }
    }
  }

  /** Adds an edge for every conflicting pair the edges so far leave unordered.  Fails exactly when a
      dependency names an unknown task or the dependencies themselves contain a cycle, so inference
      never creates one and the final validity checks never reject. */
  method BuildValidatedEffectGraph(dependencies: seq<Dependency>, effects: seq<seq<Effect>>)
    returns (graph: Option<EffectGraph>)
    ensures graph.Some? ==> fresh(graph.value)
    ensures graph.Some? <==>
              InRange(DependencyPairs(dependencies), |effects|) && Acyclic(DependencyPairs(dependencies))
    ensures graph.Some? ==>
              && Reconciled(dependencies, effects, graph.value.edges)
              && Acyclic(AllPairs(graph.value.edges))
              && InRange(AllPairs(graph.value.edges), |effects|)
              && ConflictsOrdered(AllPairs(graph.value.edges), effects)
  {
    var count := |effects|;
    var sealed := new EffectGraph();
    var adjacency := SealDeclared(dependencies, count, sealed);
    if adjacency.None? {
      return None;
    }
    ghost var explicit := DependencyPairs(dependencies);
    ghost var inferred := InferConflicts(dependencies, effects, sealed, adjacency.value);
    ReconciledOrdersConflicts(dependencies, effects, sealed.edges);
    ReconciledExtends(dependencies, effects, sealed.edges);
    var valid := sealed.Valid();
    if !valid {
      return None;
    }
    AcyclicSubset(explicit, AllPairs(sealed.edges));
    var ordered := sealed.ValidateHappensBefore(effects);
    if !ordered {
      return None;
    }
    graph := Some(sealed);
  }

  lemma ReconciledExtends(dependencies: seq<Dependency>, effects: seq<seq<Effect>>, edges: seq<EffectEdge>)
    requires Reconciled(dependencies, effects, edges)
    ensures DependencyPairs(dependencies) <= AllPairs(edges)
  {
    assert edges == edges[..|dependencies|] + edges[|dependencies|..];
    AppendSplits(edges[..|dependencies|], edges[|dependencies|..]);
    ExplicitEdgePairs(dependencies);
  }

  /** Copies the declared dependencies, refusing unknown tasks and self-loops. */
  method SealDeclared(dependencies: seq<Dependency>, count: nat, sealed: EffectGraph) returns (adjacency: Option<Table>)
    requires sealed.edges == []
    modifies sealed
    ensures adjacency.Some? <==>
              forall d | d in dependencies :: d.0 < count && d.1 < count && d.0 != d.1
    ensures adjacency.Some? ==>
              && sealed.edges == ExplicitEdges(dependencies)
              && |adjacency.value| == count && WellFormed(adjacency.value)
              && Pairs(adjacency.value) == DependencyPairs(dependencies)
  {
    var table := Empty(count);
    for i := 0 to |dependencies|
      invariant |table| == count && WellFormed(table)
      invariant sealed.edges == ExplicitEdges(dependencies[..i])
      invariant Pairs(table) == DependencyPairs(dependencies[..i])
      invariant forall k | 0 <= k < i ::
                  dependencies[k].0 < count && dependencies[k].1 < count && dependencies[k].0 != dependencies[k].1
    {
      var (before, after) := dependencies[i];
      if before >= count || after >= count {
        assert dependencies[i] in dependencies;
        return None;
      }
      var added := sealed.AddEdge(before, after, Explicit, 0);
      if !added {
        assert dependencies[i] in dependencies;
        return None;
      }
      AppendPairs(table, before, after);
      table := Append(table, before, after);
      assert dependencies[..i + 1] == dependencies[..i] + [dependencies[i]];
      assert DependencyPairs(dependencies[..i + 1]) == DependencyPairs(dependencies[..i]) + {dependencies[i]};
    }
    assert dependencies[..|dependencies|] == dependencies;
    adjacency := Some(table);
  }

  method ConflictsUnordered(adjacency: Table, effects: seq<seq<Effect>>, left: nat, right: nat) returns (unordered: bool)
    requires WellFormed(adjacency) && left < |adjacency| == |effects| && right < |effects|
    ensures unordered <==>
              TasksConflict(effects[left], effects[right]) && !Ordered(Pairs(adjacency), left, right)
  {
    var conflict := ScanForConflict(effects[left], effects[right]);
    if !conflict {
      return false;
    }
    var forwards := ReachableFrom(adjacency, left);
    var backwards := ReachableFrom(adjacency, right);
    unordered := !forwards[right] && !backwards[left];
  }

  /** Orders `left` before every later task it conflicts with and that nothing orders yet. */
  method InferRow(
    ghost explicit: Edges, ghost declared: seq<EffectEdge>, ghost inferred: seq<EffectEdge>,
    adjacency: Table, effects: seq<seq<Effect>>, left: nat, sealed: EffectGraph)
    returns (adjacency': Table, ghost inferred': seq<EffectEdge>)
    requires left < |effects| && sealed.edges == declared + inferred
    requires Inference(explicit, inferred, adjacency, effects, (left, left + 1))
    modifies sealed
    ensures sealed.edges == declared + inferred'
    ensures Inference(explicit, inferred', adjacency', effects, (left + 1, left + 2))
  {
    adjacency', inferred' := adjacency, inferred;
    for right := left + 1 to |effects|
      invariant sealed.edges == declared + inferred'
      invariant Inference(explicit, inferred', adjacency', effects, (left, right))
    {
      var unordered := ConflictsUnordered(adjacency', effects, left, right);
      InferenceStep(explicit, inferred', adjacency', effects, left, right, unordered);
      if unordered {
        var added := sealed.AddEdge(left, right, InferredConflict, 0);
        adjacency' := Append(adjacency', left, right);
        inferred' := inferred' + [EffectEdge(left, right, InferredConflict, 0)];
      }
    }
    InferenceRowDone(explicit, inferred', adjacency', effects, left);
  }

  /** Examines every pair of tasks, lower first, and orders the conflicting ones that nothing orders yet. */
  method InferConflicts(dependencies: seq<Dependency>, effects: seq<seq<Effect>>, sealed: EffectGraph, declared: Table)
    returns (ghost inferred: seq<EffectEdge>)
    requires sealed.edges == ExplicitEdges(dependencies)
    requires |declared| == |effects| && WellFormed(declared) && Pairs(declared) == DependencyPairs(dependencies)
    modifies sealed
    ensures Reconciled(dependencies, effects, sealed.edges)
    ensures Acyclic(DependencyPairs(dependencies)) ==> Acyclic(AllPairs(sealed.edges))
  {
    var count := |effects|;
    var adjacency := declared;
    ghost var explicit := DependencyPairs(dependencies);
    inferred := [];
    for left := 0 to count
      invariant sealed.edges == ExplicitEdges(dependencies) + inferred
      invariant Inference(explicit, inferred, adjacency, effects, (left, left + 1))
    {
      adjacency, inferred := InferRow(explicit, ExplicitEdges(dependencies), inferred, adjacency, effects, left, sealed);
    }
    AppendSplits(ExplicitEdges(dependencies), inferred);
    ExplicitEdgePairs(dependencies);
    InferenceComplete(dependencies, inferred, adjacency, effects);
  }

  lemma InferenceComplete(
    dependencies: seq<Dependency>, inferred: seq<EffectEdge>, adjacency: Table, effects: seq<seq<Effect>>)
    requires Inference(DependencyPairs(dependencies), inferred, adjacency, effects, (|effects|, |effects| + 1))
    ensures Reconciled(dependencies, effects, ExplicitEdges(dependencies) + inferred)
  {
    var edges := ExplicitEdges(dependencies) + inferred;
    assert edges[|dependencies|..] == inferred;
    assert edges[..|dependencies|] == ExplicitEdges(dependencies);
  }

  /** Invariant of the inference loops when `next` is the pair about to be examined. */
  ghost predicate Inference(
    explicit: Edges, inferred: seq<EffectEdge>, adjacency: Table, effects: seq<seq<Effect>>, next: Edge)
  {
    && |adjacency| == |effects| && WellFormed(adjacency)
    && Pairs(adjacency) == explicit + AllPairs(inferred)
    && (Acyclic(explicit) ==> Acyclic(Pairs(adjacency)))
    && Ascending(inferred)
    && (forall e | e in inferred ::
          && e.kind.InferredConflict? && e.timelineValue == 0 && e.before < e.after < |effects|
          && LexicographicallyLess((e.before, e.after), next))
    && (forall l: nat, r: nat | l < r < |effects| && LexicographicallyLess((l, r), next) ::
          InferredWhenUnordered(explicit, AllPairs(inferred), effects, (l, r)))
  }

  lemma InferenceStep(
    explicit: Edges, inferred: seq<EffectEdge>, adjacency: Table, effects: seq<seq<Effect>>,
    left: nat, right: nat, unordered: bool)
    requires left < right < |effects| && Inference(explicit, inferred, adjacency, effects, (left, right))
    requires unordered <==>
               TasksConflict(effects[left], effects[right]) && !Ordered(Pairs(adjacency), left, right)
    ensures unordered ==>
              Inference(explicit, inferred + [EffectEdge(left, right, InferredConflict, 0)],
                        Append(adjacency, left, right), effects, (left, right + 1))
    ensures !unordered ==> Inference(explicit, inferred, adjacency, effects, (left, right + 1))
  {
    var p := (left, right);
    var before := AllPairs(inferred);
    PresentIsAll(explicit, before, p);
    assert p !in before;
    var edge := EffectEdge(left, right, InferredConflict, 0);
    var after := if unordered then AllPairs(inferred + [edge]) else before;
    AllPairsAppend(inferred, edge);
    PresentUnaffected(explicit, before, p, p);
    assert InferredWhenUnordered(explicit, after, effects, p);
    forall l: nat, r: nat | l < r < |effects| && LexicographicallyLess((l, r), (left, right + 1))
      ensures InferredWhenUnordered(explicit, after, effects, (l, r))
    {
      if (l, r) != p {
        assert InferredWhenUnordered(explicit, before, effects, (l, r));
        PresentUnaffected(explicit, before, (l, r), p);
      }
    }
    if unordered {
      AppendPairs(adjacency, left, right);
      if Acyclic(explicit) {
        AcyclicWithNewEdge(Pairs(adjacency), left, right);
      }
    }
  }

  lemma InferenceRowDone(
    explicit: Edges, inferred: seq<EffectEdge>, adjacency: Table, effects: seq<seq<Effect>>, left: nat)
    requires left < |effects| && Inference(explicit, inferred, adjacency, effects, (left, |effects|))
    ensures Inference(explicit, inferred, adjacency, effects, (left + 1, left + 2))
  {}

  /** Inferred edges repeat neither each other nor a declared edge. */
  lemma InferenceAddsNoDuplicate(dependencies: seq<Dependency>, effects: seq<seq<Effect>>, edges: seq<EffectEdge>, i: nat, j: nat)
    requires Reconciled(dependencies, effects, edges)
    requires |dependencies| <= j < |edges| && i < j
    ensures (edges[i].before, edges[i].after) != (edges[j].before, edges[j].after)
  {
    var explicit, inferred := DependencyPairs(dependencies), edges[|dependencies|..];
    var e := inferred[j - |dependencies|];
    var p := (e.before, e.after);
    assert e in inferred;
    if i < |dependencies| {
      assert edges[..|dependencies|][i] == ExplicitEdges(dependencies)[i];
      assert dependencies[i] in explicit;
      assert p in AllPairs(inferred);
      assert InferredWhenUnordered(explicit, AllPairs(inferred), effects, p);
      if dependencies[i] == p {
        ReachesStep(PresentAt(explicit, AllPairs(inferred), p), p.0, p.0, p.1);
      }
    } else {
      assert inferred[i - |dependencies|] == edges[i];
    }
  }

  /** Reconciled edges are free of duplicates exactly when the declared dependencies are. */
  lemma DuplicateFreeExactly(dependencies: seq<Dependency>, effects: seq<seq<Effect>>, edges: seq<EffectEdge>)
    requires Reconciled(dependencies, effects, edges)
    ensures EdgesDistinct(edges) <==> forall i, j | 0 <= i < j < |dependencies| :: dependencies[i] != dependencies[j]
  {
    forall i | 0 <= i < |dependencies| ensures (edges[i].before, edges[i].after) == dependencies[i] {
      assert edges[..|dependencies|][i] == ExplicitEdges(dependencies)[i];
    }
    forall i, j | 0 <= i < j < |edges| && j >= |dependencies|
      ensures (edges[i].before, edges[i].after) != (edges[j].before, edges[j].after)
    {
      InferenceAddsNoDuplicate(dependencies, effects, edges, i, j);
    }
    if EdgesDistinct(edges) {
      forall i, j | 0 <= i < j < |dependencies| ensures dependencies[i] != dependencies[j] {
        assert (edges[i].before, edges[i].after) != (edges[j].before, edges[j].after);
      }
    }
  }

  ghost predicate EdgesDistinct(edges: seq<EffectEdge>) {
    forall i, j | 0 <= i < j < |edges| :: (edges[i].before, edges[i].after) != (edges[j].before, edges[j].after)
  }

  /** One node's effects: those verification infers, then one per dereference. */
  method InstantiateNodeEffects(m: Module) returns (effects: seq<Effect>)
    ensures Verified(m) ==> effects == InstantiatedEffects(m)
  {
    var ok, inferred := Verify(m);
    effects := inferred;
    for k := 0 to |m.instructions|
      invariant effects == inferred + ViaEffects(m.instructions[..k])
    {
      var i := m.instructions[k];
      assert m.instructions[..k + 1][..k] == m.instructions[..k];
      if i.IsVia() {
        effects := effects + [Effect(i.allocation, i.offset, i.size, if i.op.LoadVia? then Read else Write, i.epoch)];
      }
    }
    assert m.instructions[..|m.instructions|] == m.instructions;
  }
}
