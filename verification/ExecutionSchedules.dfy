/** Cutting a validated graph into components, waves and transitions
    (src/core/execution_schedule.h, src/core/execution_schedule.cpp). */
module ExecutionSchedules {
  import opened Ir
  import opened EffectConflicts
  import opened Digraph
  import opened Adjacency
  import opened EffectGraphs
  import opened CanonicalOrder
  import opened Sorting
  import opened Components
  import opened Waves
  import opened Transitions
  import opened Wrappers

  datatype Component = Component(tasks: seq<nat>, waves: seq<seq<nat>>)

  /** No `beforeWave` means the prerequisites of a component's first wave. */
  datatype Transition = Transition(
    component: nat, beforeWave: Option<nat>, afterWave: nat, completion: bool,
    regions: seq<RegionRequirement>, facets: seq<FacetRequirement>, operations: seq<U32>)

  datatype Schedule = Schedule(
    components: seq<Component>, transitions: seq<Transition>, successors: Table, order: seq<nat>)

  datatype Facts = Facts(effects: seq<seq<Effect>>, uses: seq<seq<FacetUse>>, representations: seq<RepresentationFact>)

  function TaskLists(components: seq<Component>): (r: seq<seq<nat>>)
    ensures |r| == |components| && forall c | 0 <= c < |r| :: r[c] == components[c].tasks
  {
    seq(|components|, c requires 0 <= c < |components| => components[c].tasks)
  }

  ghost predicate StructuralDistinct(edges: seq<EffectEdge>) {
    forall i, j | 0 <= i < j < |edges| && edges[i].kind.Structural() && edges[j].kind.Structural() ::
      (edges[i].before, edges[i].after) != (edges[j].before, edges[j].after)
  }

  // ------------------------------------------------------------ the specification

  ghost predicate ComponentsExact(edges: Edges, n: nat, components: seq<Component>) {
    && IsPartition(edges, n, TaskLists(components))
    && forall c | 0 <= c < |components| :: Levelled(edges, components[c].tasks, components[c].waves)
  }

  ghost predicate SuccessorsExact(edges: Edges, n: nat, successors: Table) {
    && |successors| == n && WellFormed(successors) && Pairs(successors) == edges
    && forall t | 0 <= t < n :: StrictlyAscending(successors[t])
  }

  ghost function TaskWaves(n: nat, component: Component): seq<nat> {
    seq(n, t => if t in component.tasks then WaveIndex(component.waves, t) else U32_MAX)
  }

  ghost function ReachMatrix(edges: Edges, n: nat): (r: seq<seq<bool>>)
    ensures |r| == n && forall a | 0 <= a < n :: |r[a]| == n
    ensures forall a: nat, b: nat | a < n && b < n :: r[a][b] == Reaches(edges, a, b)
  {
    seq(n, a requires 0 <= a < n => seq(n, b requires 0 <= b < n => Reaches(edges, a, b)))
  }

  ghost function BoundaryOf(edges: Edges, facts: Facts, component: Component, k: nat): Boundary
    requires k < |component.waves|
  {
    var n := |facts.effects|;
    Boundary(facts.effects, TaskWaves(n, component), ReachMatrix(edges, n), component.tasks, component.waves[k], k)
  }

  ghost predicate ComponentInRange(facts: Facts, component: Component) {
    && |facts.uses| == |facts.effects|
    && StrictlyAscending(component.tasks) && (forall t | t in component.tasks :: t < |facts.effects|)
    && (forall k | 0 <= k < |component.waves| :: StrictlyAscending(component.waves[k]))
    && (forall k, t | 0 <= k < |component.waves| && t in component.waves[k] :: t < |facts.effects|)
  }

  /** Transitions into a first wave are kept only when they carry a facet or operation. */
  ghost predicate Kept(facts: Facts, component: Component, k: nat)
    requires ComponentInRange(facts, component) && k < |component.waves|
  {
    || k != 0
    || FacetRequirements(component.waves[k], facts.uses) != []
    || OperationsAt(component.waves, k, facts.effects, facts.uses, facts.representations) != []
  }

  ghost predicate TransitionExact(edges: Edges, facts: Facts, components: seq<Component>, tr: Transition)
    requires forall c | 0 <= c < |components| :: ComponentInRange(facts, components[c])
  {
    && tr.component < |components|
    && var component, k := components[tr.component], tr.afterWave;
       && k < |component.waves| && Kept(facts, component, k)
       && tr.beforeWave == (if k == 0 then None else Some((k - 1) as nat))
       && tr.completion == (k != 0)
       && tr.facets == FacetRequirements(component.waves[k], facts.uses)
       && tr.operations == OperationsAt(component.waves, k, facts.effects, facts.uses, facts.representations)
       && RegionsExact(BoundaryOf(edges, facts, component, k), tr.regions)
  }

  predicate Earlier(c: nat, k: nat, d: nat, l: nat) {
    c < d || (c == d && k < l)
  }

  /** The kept transitions of all boundaries before wave `k` of component `c`, in order. */
  ghost predicate TransitionsUpTo(
    edges: Edges, facts: Facts, components: seq<Component>, transitions: seq<Transition>, c: nat, k: nat)
    requires forall d | 0 <= d < |components| :: ComponentInRange(facts, components[d])
  {
    && (forall tr | tr in transitions :: TransitionExact(edges, facts, components, tr))
    && PositionsAscend(transitions, c, k)
    && (forall d: nat, l: nat | d < |components| && l < |components[d].waves| && Earlier(d, l, c, k)
                                && Kept(facts, components[d], l) :: HasTransition(transitions, d, l))
  }

  /** The transitions' waves ascend and all come before wave `k` of component `c`. */
  ghost predicate PositionsAscend(transitions: seq<Transition>, c: nat, k: nat) {
    && (forall i | 0 <= i < |transitions| :: Earlier(transitions[i].component, transitions[i].afterWave, c, k))
    && (forall i, j | 0 <= i < j < |transitions| ::
          Earlier(transitions[i].component, transitions[i].afterWave, transitions[j].component, transitions[j].afterWave))
  }

  ghost predicate HasTransition(transitions: seq<Transition>, c: nat, k: nat) {
    exists i :: 0 <= i < |transitions| && transitions[i].component == c && transitions[i].afterWave == k
  }

  /** The whole schedule is determined by the structural edges and the per-task facts. */
  ghost predicate ScheduleExact(edges: Edges, facts: Facts, order: seq<nat>, schedule: Schedule) {
    var n := |facts.effects|;
    && |facts.uses| == n
    && schedule.order == order
    && SuccessorsExact(edges, n, schedule.successors)
    && ComponentsExact(edges, n, schedule.components)
    && (forall c | 0 <= c < |schedule.components| :: ComponentInRange(facts, schedule.components[c]))
    && TransitionsUpTo(edges, facts, schedule.components, schedule.transitions, |schedule.components|, 0)
  }

  // ------------------------------------------------------------ tables

  function CountInto(list: seq<Edge>, x: nat): nat {
    if list == [] then 0 else
    CountInto(list[..|list| - 1], x) + if list[|list| - 1].1 == x then 1 else 0
  }

  datatype Tables = Tables(successors: Table, undirected: Table, list: seq<Edge>)

  ghost predicate TablesExact(edges: Edges, n: nat, t: Tables) {
    && |t.successors| == n && WellFormed(t.successors) && Pairs(t.successors) == edges
    && (forall a | 0 <= a < n :: Distinct(t.successors[a]))
    && |t.undirected| == n && WellFormed(t.undirected) && Pairs(t.undirected) == Symmetric(edges)
    && (forall e | e in t.list :: e in edges)
    && (forall x: nat | x < n :: InDegree(t.successors, [], n, x) == CountInto(t.list, x))
  }

  lemma TablesGrow(edges: Edges, n: nat, t: Tables, a: nat, b: nat)
    requires TablesExact(edges, n, t) && a < n && b < n && b !in t.successors[a]
    ensures TablesExact(
              edges + {(a, b)}, n,
              Tables(Append(t.successors, a, b), Append(Append(t.undirected, a, b), b, a), t.list + [(a, b)]))
  {
    AppendPairs(t.successors, a, b);
    AppendPairs(t.undirected, a, b);
    AppendPairs(Append(t.undirected, a, b), b, a);
    assert Symmetric(edges + {(a, b)}) == Symmetric(edges) + {(a, b)} + {(b, a)} by {
      SymmetricGrows(edges, a, b);
    }
    forall x: nat | x < n ensures InDegree(Append(t.successors, a, b), [], n, x) == CountInto(t.list + [(a, b)], x) {
      InDegreeAppend(t.successors, n, a, b, x);
      assert (t.list + [(a, b)])[..|t.list|] == t.list;
    }
  }

  lemma SymmetricGrows(edges: Edges, a: nat, b: nat)
    ensures Symmetric(edges + {(a, b)}) == Symmetric(edges) + {(a, b)} + {(b, a)}
  {
    forall e | e in Symmetric(edges) + {(a, b)} + {(b, a)} ensures e in Symmetric(edges + {(a, b)}) {
      if e !in edges && e != (a, b) {
        assert (e.1, e.0) in edges + {(a, b)};
      }
    }
  }

  method BuildTables(edges: seq<EffectEdge>, n: nat) returns (r: Option<Tables>)
    ensures r.Some? <==> InRange(AllPairs(edges), n) && StructuralDistinct(edges)
    ensures r.Some? ==> TablesExact(StructuralPairs(edges), n, r.value)
  {
    var t := Tables(Empty(n), Empty(n), []);
    forall x: nat | x < n ensures InDegree(t.successors, [], n, x) == 0 {
      InDegreeZero(t.successors, [], n, x);
    }
    for i := 0 to |edges|
      invariant InRange(AllPairs(edges[..i]), n) && StructuralDistinct(edges[..i])
      invariant TablesExact(StructuralPairs(edges[..i]), n, t)
    {
      var edge := edges[i];
      assert edges[..i + 1] == edges[..i] + [edge];
      AllPairsAppend(edges[..i], edge);
      StructuralPairsAppend(edges[..i], edge);
      if edge.before >= n || edge.after >= n {
        assert (edge.before, edge.after) in AllPairs(edges);
        return None;
      }
      if edge.kind.Structural() {
        PairsMember(t.successors, edge.before, edge.after);
        DuplicateDetected(edges, i);
        if edge.after in t.successors[edge.before] {
          return None;
        }
        TablesGrow(StructuralPairs(edges[..i]), n, t, edge.before, edge.after);
        t := Tables(
          Append(t.successors, edge.before, edge.after),
          Append(Append(t.undirected, edge.before, edge.after), edge.after, edge.before),
          t.list + [(edge.before, edge.after)]);
      }
      assert StructuralDistinct(edges[..i + 1]) by {
        DistinctGrows(edges, i);
      }
    }
    assert edges[..|edges|] == edges;
    r := Some(t);
  }

  lemma DuplicateDetected(edges: seq<EffectEdge>, i: nat)
    requires i < |edges| && edges[i].kind.Structural()
    ensures (edges[i].before, edges[i].after) in StructuralPairs(edges[..i]) ==> !StructuralDistinct(edges)
  {
    var p := (edges[i].before, edges[i].after);
    if p in StructuralPairs(edges[..i]) {
      var e :| e in edges[..i] && e.kind.Structural() && (e.before, e.after) == p;
      var k :| 0 <= k < i && edges[..i][k] == e;
      assert edges[k] == e;
    }
  }

  lemma DistinctGrows(edges: seq<EffectEdge>, i: nat)
    requires i < |edges| && StructuralDistinct(edges[..i])
    requires edges[i].kind.Structural() ==> (edges[i].before, edges[i].after) !in StructuralPairs(edges[..i])
    ensures StructuralDistinct(edges[..i + 1])
  {
    var longer := edges[..i + 1];
    forall a, b | 0 <= a < b < |longer| && longer[a].kind.Structural() && longer[b].kind.Structural()
      ensures (longer[a].before, longer[a].after) != (longer[b].before, longer[b].after)
    {
      if b < i {
        assert edges[..i][a] == longer[a] && edges[..i][b] == longer[b];
      } else {
        assert edges[..i][a] in edges[..i];
        assert (longer[a].before, longer[a].after) in StructuralPairs(edges[..i]);
      }
    }
  }

  function SortRows(table: Table): (r: Table)
    ensures |r| == |table| && forall a | 0 <= a < |r| :: r[a] == Sort(table[a])
  {
    seq(|table|, a requires 0 <= a < |table| => Sort(table[a]))
  }

  lemma {:induction false} SameRowsSameDegree(a: Table, b: Table, n: nat, x: nat)
    requires n <= |a| == |b| && forall u | 0 <= u < |a| :: multiset(a[u]) == multiset(b[u])
    ensures InDegree(a, [], n, x) == InDegree(b, [], n, x)
  {
    if n > 0 {
      SameRowsSameDegree(a, b, n - 1, x);
    }
  }

  lemma SortedRowsPairs(table: Table)
    requires WellFormed(table)
    ensures WellFormed(SortRows(table)) && Pairs(SortRows(table)) == Pairs(table)
  {
    var r := SortRows(table);
    forall a | 0 <= a < |r| ensures |r[a]| == |table[a]| && forall y :: y in r[a] <==> y in table[a] {
      SortMeaning(table[a]);
    }
    forall a, k | 0 <= a < |r| && 0 <= k < |r[a]| ensures r[a][k] < |r| {
      assert r[a][k] in r[a];
      assert r[a][k] in table[a];
      var j :| 0 <= j < |table[a]| && table[a][j] == r[a][k];
    }
    forall e ensures e in Pairs(r) <==> e in Pairs(table) {
      PairsMember(r, e.0, e.1);
      PairsMember(table, e.0, e.1);
    }
  }

  lemma SortedRowsAscending(table: Table)
    requires forall a | 0 <= a < |table| :: Distinct(table[a])
    ensures forall a | 0 <= a < |table| :: StrictlyAscending(SortRows(table)[a])
  {
    forall a | 0 <= a < |table| ensures StrictlyAscending(SortRows(table)[a]) {
      SortOfDistinct(table[a]);
    }
  }

  method AllReaches(table: Table) returns (reaches: seq<seq<bool>>)
    requires WellFormed(table)
    ensures reaches == ReachMatrix(Pairs(table), |table|)
  {
    reaches := [];
    for source := 0 to |table|
      invariant |reaches| == source
      invariant forall a | 0 <= a < source :: |reaches[a]| == |table|
      invariant forall a, b: nat | 0 <= a < source && b < |table| :: reaches[a][b] == Reaches(Pairs(table), a, b)
    {
      var seen := ReachableFrom(table, source);
      reaches := reaches + [seen[..]];
    }
    forall a | 0 <= a < |table| ensures reaches[a] == ReachMatrix(Pairs(table), |table|)[a] {
    }
  }

  // ------------------------------------------------------------ components and waves

  /** In-degrees inside one component, counted from the edge list. */
  method MemberDegrees(list: seq<Edge>, tasks: seq<nat>, n: nat, ghost edges: Edges) returns (inDegree: seq<nat>)
    requires Inward(edges, tasks) && forall e | e in list :: e in edges
    requires InRange(edges, n) && forall t | t in tasks :: t < n
    ensures |inDegree| == n && forall x | x in tasks :: inDegree[x] == CountInto(list, x)
  {
    inDegree := seq(n, _ => 0);
    for i := 0 to |list|
      invariant |inDegree| == n && forall x | x in tasks :: inDegree[x] == CountInto(list[..i], x)
    {
      var e := list[i];
      assert e in list && e in edges;
      assert list[..i + 1][..i] == list[..i];
      if e.0 in tasks && e.1 in tasks {
        inDegree := inDegree[e.1 := inDegree[e.1] + 1];
      }
    }
    assert list[..|list|] == list;
  }

  lemma ComponentInward(edges: Edges, n: nat, tasks: seq<nat>)
    requires InRange(edges, n) && IsComponent(edges, n, tasks)
    ensures Inward(edges, tasks)
  {
    forall e | e in edges ensures e.0 in tasks <==> e.1 in tasks {
      EdgeStaysInside(edges, n, tasks, e);
    }
  }

  lemma WavesInside(edges: Edges, tasks: seq<nat>, waves: seq<seq<nat>>, k: nat, t: nat)
    requires Levelled(edges, tasks, waves) && k < |waves|
    ensures t in waves[k] <==> t in tasks && WaveIndex(waves, t) == k
  {
    var rank := Ranks(tasks, waves);
    assert t in waves[k] <==> t in rank && rank[t] == k;
  }

  method BuildComponent(tables: Tables, successors: Table, tasks: seq<nat>, ghost edges: Edges, n: nat)
    returns (r: Option<Component>)
    requires TablesExact(edges, n, tables) && InRange(edges, n) && successors == SortRows(tables.successors)
    requires WellFormed(successors) && Pairs(successors) == edges && IsComponent(edges, n, tasks)
    ensures r.None? ==> !Acyclic(edges)
    ensures r.Some? ==> r.value.tasks == tasks && Levelled(edges, tasks, r.value.waves)
  {
    ComponentInward(edges, n, tasks);
    var inDegree := MemberDegrees(tables.list, tasks, n, edges);
    forall x | x in tasks ensures inDegree[x] == InDegree(successors, [], n, x) {
      SameRowsSameDegree(tables.successors, successors, n, x);
    }
    var waves := LevelComponent(successors, tasks, inDegree);
    if waves.None? {
      return None;
    }
    r := Some(Component(tasks, waves.value));
  }

  method BuildComponents(tables: Tables, successors: Table, ghost edges: Edges, n: nat)
    returns (r: Option<seq<Component>>)
    requires TablesExact(edges, n, tables) && InRange(edges, n) && successors == SortRows(tables.successors)
    ensures r.None? ==> !Acyclic(edges)
    ensures r.Some? ==> ComponentsExact(edges, n, r.value)
  {
    var lists := FindComponents(tables.undirected, edges);
    SortedRowsPairs(tables.successors);
    var components: seq<Component> := [];
    for c := 0 to |lists|
      invariant |components| == c
      invariant forall d | 0 <= d < c ::
                  components[d].tasks == lists[d] && Levelled(edges, components[d].tasks, components[d].waves)
    {
      var component := BuildComponent(tables, successors, lists[c], edges, n);
      if component.None? {
        return None;
      }
      components := components + [component.value];
    }
    assert TaskLists(components) == lists;
    r := Some(components);
  }

  lemma ComponentsInRange(edges: Edges, facts: Facts, components: seq<Component>)
    requires |facts.uses| == |facts.effects| && ComponentsExact(edges, |facts.effects|, components)
    ensures forall c | 0 <= c < |components| :: ComponentInRange(facts, components[c])
  {
    forall c | 0 <= c < |components| ensures ComponentInRange(facts, components[c]) {
      var component := components[c];
      assert TaskLists(components)[c] == component.tasks;
      assert IsComponent(edges, |facts.effects|, component.tasks);
      forall k, t | 0 <= k < |component.waves| && t in component.waves[k] ensures t < |facts.effects| {
        WavesInside(edges, component.tasks, component.waves, k, t);
      }
    }
  }

  // ------------------------------------------------------------ transitions

  method WaveNumbers(component: Component, n: nat, ghost edges: Edges) returns (taskWave: seq<nat>)
    requires Levelled(edges, component.tasks, component.waves)
    requires forall k, t | 0 <= k < |component.waves| && t in component.waves[k] :: t < n
    ensures taskWave == TaskWaves(n, component)
  {
    taskWave := seq(n, _ => U32_MAX);
    for k := 0 to |component.waves|
      invariant |taskWave| == n
      invariant forall t: nat | t < n ::
                  taskWave[t] == if t in component.tasks && WaveIndex(component.waves, t) < k
                                 then WaveIndex(component.waves, t) else U32_MAX
    {
      var wave := component.waves[k];
      for i := 0 to |wave|
        invariant |taskWave| == n
        invariant forall t: nat | t < n ::
                    taskWave[t] == if t in component.tasks && (WaveIndex(component.waves, t) < k || t in wave[..i])
                                   then WaveIndex(component.waves, t) else U32_MAX
      {
        assert wave[i] in wave;
        WavesInside(edges, component.tasks, component.waves, k, wave[i]);
        taskWave := taskWave[wave[i] := k];
      }
      assert wave[..|wave|] == wave;
      forall t: nat ensures t in wave <==> t in component.tasks && WaveIndex(component.waves, t) == k {
        WavesInside(edges, component.tasks, component.waves, k, t);
      }
    }
    forall t: nat | t < n && t in component.tasks ensures WaveIndex(component.waves, t) < |component.waves| {
      var rank := Ranks(component.tasks, component.waves);
      assert t in rank;
    }
  }

  method BuildTransition(
    facts: Facts, components: seq<Component>, c: nat, k: nat, taskWave: seq<nat>, reaches: seq<seq<bool>>,
    ghost edges: Edges)
    returns (tr: Option<Transition>)
    requires c < |components| && k < |components[c].waves|
    requires forall d | 0 <= d < |components| :: ComponentInRange(facts, components[d])
    requires taskWave == TaskWaves(|facts.effects|, components[c]) && reaches == ReachMatrix(edges, |facts.effects|)
    ensures tr.Some? <==> Kept(facts, components[c], k)
    ensures tr.Some? ==>
              TransitionExact(edges, facts, components, tr.value) && tr.value.component == c && tr.value.afterWave == k
  {
    var component := components[c];
    var boundary := Boundary(facts.effects, taskWave, reaches, component.tasks, component.waves[k], k);
    var facets := CollectFacets(component.waves[k], facts.uses);
    var operations := CollectOperations(component.waves, k, facts.effects, facts.uses, facts.representations);
    var regions := [];
    if k != 0 {
      regions := CollectRegions(boundary);
    } else {
      assert RegionsMatch(boundary, [], []);
      assert RegionsExact(boundary, []);
    }
    if k != 0 || facets != [] || operations != [] {
      tr := Some(Transition(c, if k == 0 then None else Some(k - 1), k, k != 0, regions, facets, operations));
    } else {
      tr := None;
    }
  }

  method BuildTransitions(facts: Facts, components: seq<Component>, reaches: seq<seq<bool>>, ghost edges: Edges)
    returns (transitions: seq<Transition>)
    requires forall d | 0 <= d < |components| :: ComponentInRange(facts, components[d])
    requires forall d | 0 <= d < |components| :: Levelled(edges, components[d].tasks, components[d].waves)
    requires reaches == ReachMatrix(edges, |facts.effects|)
    ensures TransitionsUpTo(edges, facts, components, transitions, |components|, 0)
  {
    transitions := [];
    for c := 0 to |components|
      invariant TransitionsUpTo(edges, facts, components, transitions, c, 0)
    {
      var taskWave := WaveNumbers(components[c], |facts.effects|, edges);
      for k := 0 to |components[c].waves|
        invariant TransitionsUpTo(edges, facts, components, transitions, c, k)
      {
        var tr := BuildTransition(facts, components, c, k, taskWave, reaches, edges);
        var added := if tr.Some? then [tr.value] else [];
        TransitionsGrow(edges, facts, components, transitions, added, c, k);
        transitions := transitions + added;
      }
    }
  }

  lemma PositionsGrow(before: seq<Transition>, added: seq<Transition>, c: nat, k: nat)
    requires PositionsAscend(before, c, k) && |added| <= 1
    requires forall tr | tr in added :: tr.component == c && tr.afterWave == k
    ensures PositionsAscend(before + added, c, k + 1)
  {
    if added != [] {
      assert added[0] in added;
    }
  }

  lemma FoundInLonger(before: seq<Transition>, added: seq<Transition>, c: nat, k: nat)
    requires HasTransition(before, c, k)
    ensures HasTransition(before + added, c, k)
  {
    var i :| 0 <= i < |before| && before[i].component == c && before[i].afterWave == k;
    assert (before + added)[i] == before[i];
  }

  /** One more wave is covered once that wave's transition, if it is kept, is appended. */
  lemma TransitionsGrow(
    edges: Edges, facts: Facts, components: seq<Component>, before: seq<Transition>, added: seq<Transition>, c: nat, k: nat)
    requires forall d | 0 <= d < |components| :: ComponentInRange(facts, components[d])
    requires c < |components| && k < |components[c].waves| && |added| <= 1
    requires TransitionsUpTo(edges, facts, components, before, c, k)
    requires added != [] <==> Kept(facts, components[c], k)
    requires forall tr | tr in added ::
               TransitionExact(edges, facts, components, tr) && tr.component == c && tr.afterWave == k
    ensures TransitionsUpTo(edges, facts, components, before + added, c, k + 1)
  {
    PositionsGrow(before, added, c, k);
    forall d: nat, l: nat | d < |components| && l < |components[d].waves| && Earlier(d, l, c, k + 1)
                            && Kept(facts, components[d], l)
      ensures HasTransition(before + added, d, l)
    {
      if (d, l) == (c, k) {
        assert added[0] in added;
        assert (before + added)[|before|] == added[0];
      } else {
        FoundInLonger(before, added, d, l);
      }
    }
  }

  /** Derives the schedule.  It exists exactly when the inputs cover every task, the given order is the
      canonical one, every edge names a known task and no structural edge is repeated. */
  method DeriveExecutionSchedule(edges: seq<EffectEdge>, facts: Facts, order: seq<nat>) returns (r: Option<Schedule>)
    ensures var n, pairs := |facts.effects|, StructuralPairs(edges);
            r.Some? <==>
              && |facts.uses| == n && InRange(AllPairs(edges), n) && StructuralDistinct(edges)
              && Acyclic(pairs) && IsCanonical(pairs, n, order)
    ensures r.Some? ==> ScheduleExact(StructuralPairs(edges), facts, order, r.value)
  {
    var n := |facts.effects|;
    ghost var pairs := StructuralPairs(edges);
    StructuralSubset(edges);
    if |facts.uses| != n || |order| != n {
      return None;
    }
    var wellFormed := IsPermutation(order, n);
    if !wellFormed {
      return None;
    }
    var expected := DeterministicOrder(edges, n);
    if expected.None? || expected.value != order {
      if expected.Some? && IsCanonical(pairs, n, order) {
        CanonicalUnique(pairs, n, order, expected.value);
      }
      return None;
    }
    var tables := BuildTables(edges, n);
    if tables.None? {
      return None;
    }
    var successors := SortRows(tables.value.successors);
    SortedRowsPairs(tables.value.successors);
    SortedRowsAscending(tables.value.successors);
    var reaches := AllReaches(successors);
    var components := BuildComponents(tables.value, successors, pairs, n);
    if components.None? {
      return None;
    }
    ComponentsInRange(pairs, facts, components.value);
    var transitions := BuildTransitions(facts, components.value, reaches, pairs);
    r := Some(Schedule(components.value, transitions, successors, order));
  }

  lemma StructuralSubset(edges: seq<EffectEdge>)
    ensures StructuralPairs(edges) <= AllPairs(edges)
    ensures forall n: nat | InRange(AllPairs(edges), n) :: InRange(StructuralPairs(edges), n)
  {}

  method IsPermutation(order: seq<nat>, n: nat) returns (ok: bool)
    requires |order| == n
    ensures ok <==> IsOrdering(n, order)
  {
    var seen := new bool[n](_ => false);
    for i := 0 to n
      invariant forall k | 0 <= k < i :: order[k] < n
      invariant Distinct(order[..i])
      invariant forall t: nat | t < n :: seen[t] <==> t in order[..i]
    {
      var task := order[i];
      if task >= n || seen[task] {
        if task < n {
          var k :| 0 <= k < i && order[..i][k] == task;
          assert order[k] == order[i];
        }
        return false;
      }
      seen[task] := true;
    }
    assert order[..n] == order;
    ok := true;
  }
}
