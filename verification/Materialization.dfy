/** From compute modules and declared dependencies to a sealed plan, and from there to a finished submission
    (src/core/execution_plan.cpp, `materialize_execution_plan`; src/backends/reference/reference_device_hal.cpp). */
module Materialization {
  import opened Ir
  import opened Arenas
  import opened ArenaStore
  import opened Wrappers
  import opened Interpreter
  import opened Footprint
  import opened ReferenceExecutor
  import opened EffectConflicts
  import opened Digraph
  import opened EffectGraphs
  import opened CanonicalOrder
  import opened ExecutionPlans
  import opened ExecutionSchedules
  import opened Transitions
  import opened ScheduleSemantics
  import opened ScheduleProperties
  import opened ReferenceSubmit

  datatype SealedPlan = SealedPlan(plan: Plan, schedule: Schedule)

  /** Every allocation the module touches is active: its effects' allocations at generation 1 and its dereference
      targets at the generation they name. */
  ghost predicate TouchesActive(memory: Allocations, m: Module) {
    && (forall i | i in m.instructions && i.IsVia() :: NamesActive(memory, PointerRef(i.allocation, i.generation)))
    && (forall e | e in InstantiatedEffects(m) :: NamesActive(memory, PointerRef(e.allocation, 1)))
  }

  ghost predicate Covered(certificate: Option<seq<Effect>>, m: Module) {
    certificate.Some? ==> forall e | e in InstantiatedEffects(m) :: CertificateCovers(certificate.value, e)
  }

  /** What each task must satisfy: its root and everything it touches are active, its module verifies, and a supplied
      certificate covers its effects. */
  ghost predicate Admissible(
    memory: Allocations, modules: seq<Module>, roots: seq<PointerRef>, certificate: Option<seq<Effect>>)
  {
    && modules != [] && |roots| == |modules|
    && (forall r | r in roots :: NamesActive(memory, r))
    && (forall m | m in modules :: Verified(m) && TouchesActive(memory, m) && Covered(certificate, m))
  }

  ghost predicate DistinctDependencies(dependencies: seq<Dependency>) {
    forall i, j | 0 <= i < j < |dependencies| :: dependencies[i] != dependencies[j]
  }

  /** What the declared inputs must satisfy. */
  ghost predicate Materializable(
    memory: Allocations, modules: seq<Module>, roots: seq<PointerRef>, dependencies: seq<Dependency>,
    certificate: Option<seq<Effect>>)
  {
    && Admissible(memory, modules, roots, certificate)
    && InRange(DependencyPairs(dependencies), |modules|) && Acyclic(DependencyPairs(dependencies))
    && DistinctDependencies(dependencies)
  }

  /** The tasks' effects, in the given order. */
  function EffectsInOrder(effects: seq<seq<Effect>>, order: seq<nat>): seq<Effect>
    requires forall i | 0 <= i < |order| :: order[i] < |effects|
  {
    if order == [] then [] else
    EffectsInOrder(effects, order[..|order| - 1]) + effects[order[|order| - 1]]
  }

  /** The supplied certificate, or by default the instantiated effects themselves. */
  function Ranges(certificate: Option<seq<Effect>>, effects: seq<seq<Effect>>, order: seq<nat>): seq<Effect>
    requires forall i | 0 <= i < |order| :: order[i] < |effects|
  {
    if certificate.Some? then certificate.value else EffectsInOrder(effects, order)
  }

  ghost predicate PlanExact(
    modules: seq<Module>, dependencies: seq<Dependency>, certificate: Option<seq<Effect>>, facts: seq<RepresentationFact>,
    s: SealedPlan)
  {
    && s.plan.modules == modules && s.plan.Sealed()
    && DependencyPairs(dependencies) <= s.plan.edges
    && IsCanonical(s.plan.edges, |modules|, s.schedule.order)
    && (var ranges := Ranges(certificate, s.plan.effects, s.schedule.order);
        s.plan.certificate == if ranges == [] then None else Some(ranges))
    && ScheduleExact(s.plan.edges, Facts(s.plan.effects, NoUses(|modules|), facts), s.schedule.order, s.schedule)
  }

  /** Compute tasks use no facets. */
  function NoUses(n: nat): (r: seq<seq<FacetUse>>)
    ensures |r| == n
  {
    seq(n, _ => [])
  }

  /** One task's effects, unless its module is refused or touches something inactive. */
  method TaskEffectsOf(m: Module, arena: Arena) returns (r: Option<seq<Effect>>)
    ensures r.Some? <==> Verified(m) && TouchesActive(arena.allocations, m)
    ensures r.Some? ==> r.value == InstantiatedEffects(m)
  {
    var verified, _ := Verify(m);
    if !verified {
      return None;
    }
    for k := 0 to |m.instructions|
      invariant forall j | 0 <= j < k && m.instructions[j].IsVia() ::
                  NamesActive(arena.allocations, PointerRef(m.instructions[j].allocation, m.instructions[j].generation))
    {
      var i := m.instructions[k];
      if i.IsVia() && !NamesActive(arena.allocations, PointerRef(i.allocation, i.generation)) {
        assert i in m.instructions;
        return None;
      }
    }
    var effects := InstantiateNodeEffects(m);
    for k := 0 to |effects|
      invariant forall j | 0 <= j < k :: NamesActive(arena.allocations, PointerRef(effects[j].allocation, 1))
    {
      if !NamesActive(arena.allocations, PointerRef(effects[k].allocation, 1)) {
        assert effects[k] in effects;
        return None;
      }
    }
    r := Some(effects);
  }

  method TaskEffects(modules: seq<Module>, roots: seq<PointerRef>, arena: Arena) returns (r: Option<seq<seq<Effect>>>)
    requires |roots| == |modules|
    ensures r.Some? <==> (forall root | root in roots :: NamesActive(arena.allocations, root)) &&
                         forall m | m in modules :: Verified(m) && TouchesActive(arena.allocations, m)
    ensures r.Some? ==> |r.value| == |modules| && forall t | 0 <= t < |modules| :: r.value[t] == InstantiatedEffects(modules[t])
  {
    var effects: seq<seq<Effect>> := [];
    for t := 0 to |modules|
      invariant |effects| == t
      invariant forall k | 0 <= k < t ::
                  && NamesActive(arena.allocations, roots[k]) && Verified(modules[k]) && TouchesActive(arena.allocations, modules[k])
                  && effects[k] == InstantiatedEffects(modules[k])
    {
      if !NamesActive(arena.allocations, roots[t]) {
        assert roots[t] in roots;
        return None;
      }
      var instantiated := TaskEffectsOf(modules[t], arena);
      if instantiated.None? {
        assert modules[t] in modules;
        return None;
      }
      effects := effects + [instantiated.value];
    }
    r := Some(effects);
  }

  lemma {:induction false} EffectsInOrderMembers(effects: seq<seq<Effect>>, order: seq<nat>, e: Effect)
    requires forall i | 0 <= i < |order| :: order[i] < |effects|
    ensures e in EffectsInOrder(effects, order) <==> exists i :: 0 <= i < |order| && e in effects[order[i]]
  {
    if order != [] {
      var n := |order| - 1;
      EffectsInOrderMembers(effects, order[..n], e);
      if i :| 0 <= i < |order| && e in effects[order[i]] {
        assert i < n ==> e in effects[order[..n][i]];
      }
      if i :| 0 <= i < n && e in effects[order[..n][i]] {
        assert e in effects[order[i]];
      }
    }
  }

  /** Instantiates and concatenates the effects, and checks a supplied certificate against them. */
  method CheckCertificate(modules: seq<Module>, effects: seq<seq<Effect>>, order: seq<nat>, certificate: Option<seq<Effect>>)
    returns (ok: bool, ranges: seq<Effect>)
    requires |effects| == |modules| && forall t | 0 <= t < |modules| :: effects[t] == InstantiatedEffects(modules[t])
    requires IsOrdering(|modules|, order)
    ensures ok <==> forall m | m in modules :: Covered(certificate, m)
    ensures ok ==> ranges == Ranges(certificate, effects, order)
  {
    var instantiated: seq<Effect> := [];
    for i := 0 to |order|
      invariant instantiated == EffectsInOrder(effects, order[..i])
    {
      assert order[..i + 1][..i] == order[..i];
      instantiated := instantiated + effects[order[i]];
    }
    assert order[..|order|] == order;
    if certificate.None? {
      return true, instantiated;
    }
    ok := forall e | e in instantiated :: CertificateCovers(certificate.value, e);
    ranges := certificate.value;
    CoveredInOrder(modules, effects, order, certificate);
  }

  lemma CoveredInOrder(modules: seq<Module>, effects: seq<seq<Effect>>, order: seq<nat>, certificate: Option<seq<Effect>>)
    requires |effects| == |modules| && forall t | 0 <= t < |modules| :: effects[t] == InstantiatedEffects(modules[t])
    requires IsOrdering(|modules|, order) && certificate.Some?
    ensures (forall e | e in EffectsInOrder(effects, order) :: CertificateCovers(certificate.value, e)) <==>
            forall m | m in modules :: Covered(certificate, m)
  {
    forall e ensures e in EffectsInOrder(effects, order) <==> exists t :: 0 <= t < |modules| && e in effects[t] {
      EffectsInOrderMembers(effects, order, e);
      if t: nat :| t < |modules| && e in effects[t] {
        var i := IndexOf(|modules|, order, t);
      }
    }
    var ranges := certificate.value;
    if forall e | e in EffectsInOrder(effects, order) :: CertificateCovers(ranges, e) {
      forall m | m in modules ensures Covered(certificate, m) {
        var t :| 0 <= t < |modules| && modules[t] == m;
        forall e | e in InstantiatedEffects(m) ensures CertificateCovers(ranges, e) {
          assert e in effects[t];
        }
      }
    }
    if forall m | m in modules :: Covered(certificate, m) {
      forall e | e in EffectsInOrder(effects, order) ensures CertificateCovers(ranges, e) {
        var t :| 0 <= t < |modules| && e in effects[t];
        assert Covered(certificate, modules[t]);
      }
    }
  }

  lemma AllStructural(edges: seq<EffectEdge>)
    requires forall e | e in edges :: e.kind.Structural()
    ensures StructuralPairs(edges) == AllPairs(edges)
  {}

  lemma ReconciledStructural(dependencies: seq<Dependency>, effects: seq<seq<Effect>>, edges: seq<EffectEdge>)
    requires Reconciled(dependencies, effects, edges)
    ensures StructuralPairs(edges) == AllPairs(edges)
    ensures StructuralDistinct(edges) <==> DistinctDependencies(dependencies)
  {
    var explicit, inferred := edges[..|dependencies|], edges[|dependencies|..];
    assert edges == explicit + inferred;
    forall i | 0 <= i < |edges| ensures edges[i].kind.Structural() {
      if i < |dependencies| {
        assert explicit[i] == ExplicitEdges(dependencies)[i];
      } else {
        assert edges[i] == inferred[i - |dependencies|];
        assert edges[i] in inferred;
      }
    }
    AllStructural(edges);
    DuplicateFreeExactly(dependencies, effects, edges);
    assert StructuralDistinct(edges) <==> EdgesDistinct(edges);
  }

  /** Sealing succeeds exactly when every task is admissible and the dependencies are in range, acyclic and free of
      duplicates: neither conflict inference nor schedule derivation adds a reason to fail. */
  method SealPlan(
    modules: seq<Module>, roots: seq<PointerRef>, dependencies: seq<Dependency>, certificate: Option<seq<Effect>>,
    facts: seq<RepresentationFact>, arena: Arena)
    returns (r: Option<SealedPlan>)
    requires |roots| == |modules|
    ensures r.Some? <==> Materializable(arena.allocations, modules, roots, dependencies, certificate)
    ensures r.Some? ==> PlanExact(modules, dependencies, certificate, facts, r.value)
  {
    var effects := TaskEffects(modules, roots, arena);
    if effects.None? {
      return None;
    }
    var graph := BuildValidatedEffectGraph(dependencies, effects.value);
    if graph.None? {
      return None;
    }
    var edges := graph.value.edges;
    ReconciledStructural(dependencies, effects.value, edges);
    ReconciledExtends(dependencies, effects.value, edges);
    var order := DeterministicOrder(edges, |modules|);
    if order.None? {
      return None;
    }
    var schedule := DeriveExecutionSchedule(edges, Facts(effects.value, NoUses(|modules|), facts), order.value);
    if schedule.None? || modules == [] {
      return None;
    }
    var covered, ranges := CheckCertificate(modules, effects.value, order.value, certificate);
    if !covered {
      return None;
    }
    var plan := Plan(modules, effects.value, if ranges == [] then None else Some(ranges), StructuralPairs(edges));
    r := Some(SealedPlan(plan, schedule.value));
  }

  lemma CoversItself(e: Effect)
    requires e.size != 0
    ensures EffectCovers(e, e)
  {
    assert (e.access.Bits() & e.access.Bits()) == e.access.Bits();
  }

  /** A sealed plan's certificate covers the effects of each of its tasks. */
  lemma SealedCovers(
    memory: Allocations, modules: seq<Module>, roots: seq<PointerRef>, dependencies: seq<Dependency>,
    certificate: Option<seq<Effect>>, facts: seq<RepresentationFact>, s: SealedPlan, t: nat)
    requires Admissible(memory, modules, roots, certificate) && PlanExact(modules, dependencies, certificate, facts, s)
    requires t < |modules|
    ensures s.plan.certificate.Some? ==> forall e | e in s.plan.effects[t] :: CertificateCovers(s.plan.certificate.value, e)
  {
    var m := modules[t];
    assert m in modules && s.plan.effects[t] == InstantiatedEffects(m);
    VerifiedEffectsFit(m);
    if certificate.None? && s.plan.certificate.Some? {
      var i := IndexOf(|modules|, s.schedule.order, t);
      forall e | e in s.plan.effects[t] ensures CertificateCovers(s.plan.certificate.value, e) {
        EffectsInOrderMembers(s.plan.effects, s.schedule.order, e);
        CoversItself(e);
      }
    }
  }

  /** No task of a sealed plan ever fails for its certificate or its code, whatever the memory it meets: only the
      faults of running remain. */
  lemma SealedFaultsAreRuntimeFaults(
    memory: Allocations, modules: seq<Module>, roots: seq<PointerRef>, dependencies: seq<Dependency>,
    certificate: Option<seq<Effect>>, facts: seq<RepresentationFact>, s: SealedPlan, t: nat, met: Allocations)
    requires Admissible(memory, modules, roots, certificate) && PlanExact(modules, dependencies, certificate, facts, s)
    requires t < |modules| && Backed(met)
    ensures var fault := Execute(modules[t], s.plan.certificate, Some(s.plan.effects[t]), met).1.fault;
            fault.Some? ==> !fault.value.code.CertificateMiss? && !fault.value.code.IrInvalid?
  {
    SealedCovers(memory, modules, roots, dependencies, certificate, facts, s, t);
    assert modules[t] in modules;
    if s.plan.certificate.Some? {
      NoneMissing(s.plan.certificate.value, s.plan.effects[t]);
    }
    VerifiedExecutable(modules[t]);
    StopCodes(modules[t].instructions, 0, Start(met, |modules[t].instructions|));
  }

  /** The scheduler end to end.  For all admissible tasks and acyclic, duplicate-free dependencies, whatever
      linear extension `order` of the sealed edges one picks, the submission leaves the arena as running the
      tasks in that order does, with the same started, cancelled and failed tasks; every other input is refused
      before anything runs. */
  method SealAndSubmit(
    modules: seq<Module>, roots: seq<PointerRef>, dependencies: seq<Dependency>, certificate: Option<seq<Effect>>,
    facts: seq<RepresentationFact>, arena: Arena, ghost order: seq<nat>)
    returns (sealed: Option<SealedPlan>, run: Option<ScheduleRun>, r: Option<SubmissionResult>)
    requires Backed(arena.allocations) && |roots| == |modules|
    modifies arena`allocations
    ensures sealed.Some? <==> Materializable(old(arena.allocations), modules, roots, dependencies, certificate)
    ensures sealed.None? ==> arena.allocations == old(arena.allocations)
    ensures sealed.Some? ==>
              && PlanExact(modules, dependencies, certificate, facts, sealed.value)
              && run.Some? && r.Some? && fresh(run.value)
    ensures sealed.Some? && LinearExtension(sealed.value.plan.edges, |modules|, order) ==>
              && RunMeans(sealed.value.plan, old(arena.allocations), order, arena.allocations,
                          run.value.started[..], run.value.cancelled[..])
              && ReportExact(sealed.value.plan, RunOrder(sealed.value.plan, World(old(arena.allocations), map[]), order),
                             sealed.value.schedule.order, r.value)
              && TraceExact(RunOrder(sealed.value.plan, World(old(arena.allocations), map[]), order),
                            ComponentMajorOrder(sealed.value.schedule.components), r.value)
  {
    sealed := SealPlan(modules, roots, dependencies, certificate, facts, arena);
    run, r := None, None;
    if sealed.Some? {
      var s := sealed.value;
      ghost var start := arena.allocations;
      var finished, result :=
        SubmitSchedule(s.plan, s.schedule, arena, Facts(s.plan.effects, NoUses(|modules|), facts));
      run, r := Some(finished), Some(result);
      GreedyRespects(s.plan.edges, |modules|, s.schedule.order);
      if LinearExtension(s.plan.edges, |modules|, order) {
        AnyLinearExtensionMeansTheSame(s.plan, World(start, map[]), order, s.schedule.order);
      }
    }
  }
}
