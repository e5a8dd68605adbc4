/** What a derived schedule guarantees: its component-major wave order is a linear extension,
    unordered positions never conflict, and its visibility facts are complete and exact. */
module ScheduleProperties {
  import opened Ir
  import opened EffectConflicts
  import opened Digraph
  import opened Collections
  import opened EffectGraphs
  import opened Sorting
  import opened Components
  import opened Waves
  import opened Transitions
  import opened ExecutionSchedules
  import opened Wrappers

  function WaveOrder(waves: seq<seq<nat>>): seq<nat> {
    if waves == [] then [] else WaveOrder(waves[..|waves| - 1]) + waves[|waves| - 1]
  }

  /** The order in which a backend enters the tasks: component by component, wave by wave. */
  function ComponentMajorOrder(components: seq<Component>): seq<nat> {
    if components == [] then [] else
    var n := |components| - 1;
    ComponentMajorOrder(components[..n]) + WaveOrder(components[n].waves)
  }

  method ScheduledTasks(components: seq<Component>) returns (tasks: seq<nat>)
    ensures tasks == ComponentMajorOrder(components)
  {
    tasks := [];
    for c := 0 to |components|
      invariant tasks == ComponentMajorOrder(components[..c])
    {
      var waves := components[c].waves;
      ghost var before := tasks;
      for k := 0 to |waves|
        invariant tasks == before + WaveOrder(waves[..k])
      {
        tasks := tasks + waves[k];
        assert waves[..k + 1][..k] == waves[..k];
      }
      assert waves[..|waves|] == waves;
      assert components[..c + 1][..c] == components[..c];
    }
    assert components[..|components|] == components;
  }

  lemma ConcatOrders(edges: Edges, a: seq<nat>, b: seq<nat>)
    requires Distinct(a) && Distinct(b) && Respects(edges, a) && Respects(edges, b)
    requires forall x, y | x in a && y in b :: x != y && (y, x) !in edges
    ensures Distinct(a + b) && Respects(edges, a + b)
  {
    var c := a + b;
    forall i | 0 <= i < |c| ensures if i < |a| then c[i] in a else c[i] in b {}
  }

  lemma RankRises(edges: Edges, rank: RankMap, a: nat, b: nat)
    requires RanksForced(edges, rank) && a in rank && b in rank && Reaches(edges, a, b)
    ensures rank[a] <= rank[b]
    ensures ProperlyReaches(edges, a, b) ==> rank[a] < rank[b]
  {
    RankAtLeast(edges, rank, a, b);
    if ProperlyReaches(edges, a, b) {
      var e :| e in edges && e.0 == a && Reaches(edges, e.1, b);
      RankClosedBackwards(edges, rank, e.1, b);
      RankAtLeast(edges, rank, e.1, b);
    }
  }

  lemma RankAtLeast(edges: Edges, rank: RankMap, a: nat, b: nat)
    requires RanksForced(edges, rank) && a in rank && b in rank && Reaches(edges, a, b)
    ensures rank[a] <= rank[b]
  {
    var s := iset x: nat | x in rank ==> rank[a] <= rank[x];
    assert Closed(edges, s);
  }

  lemma RankClosedBackwards(edges: Edges, rank: RankMap, a: nat, b: nat)
    requires RanksForced(edges, rank) && b in rank && Reaches(edges, a, b)
    ensures a in rank
  {
    var s := iset x: nat | x !in rank;
    assert Closed(edges, s);
  }

  lemma {:induction false} WaveOrderExact(edges: Edges, tasks: seq<nat>, waves: seq<seq<nat>>, count: nat)
    requires Levelled(edges, tasks, waves) && count <= |waves|
    ensures var order := WaveOrder(waves[..count]);
            && Distinct(order) && Respects(edges, order)
            && forall t :: t in order <==> t in tasks && WaveIndex(waves, t) < count
  {
    var rank := Ranks(tasks, waves);
    if count > 0 {
      var k := count - 1;
      WaveOrderExact(edges, tasks, waves, k);
      assert waves[..count][..k] == waves[..k];
      var front, wave := WaveOrder(waves[..k]), waves[k];
      assert WaveOrder(waves[..count]) == front + wave;
      forall t ensures t in wave <==> t in rank && rank[t] == k {}
      forall i, j | 0 <= i < |wave| && 0 <= j < |wave| ensures (wave[i], wave[j]) !in edges {
        assert wave[i] in wave && wave[j] in wave;
      }
      forall x, y | x in front && y in wave ensures (y, x) !in edges {
        assert x in rank && y in rank;
      }
      ConcatOrders(edges, front, wave);
    }
  }

  lemma ComponentOrderExact(edges: Edges, component: Component)
    requires Levelled(edges, component.tasks, component.waves)
    ensures var order := WaveOrder(component.waves);
            && Distinct(order) && Respects(edges, order)
            && forall t :: t in order <==> t in component.tasks
  {
    WaveOrderExact(edges, component.tasks, component.waves, |component.waves|);
    assert component.waves[..|component.waves|] == component.waves;
    var rank := Ranks(component.tasks, component.waves);
    forall t | t in component.tasks ensures WaveIndex(component.waves, t) < |component.waves| {
      assert t in rank && rank[t] < |component.waves|;
    }
  }

  /** No edge leads from a later component back into an earlier one. */
  lemma ComponentsApart(edges: Edges, n: nat, components: seq<Component>, c: nat, x: nat, y: nat)
    requires ComponentsExact(edges, n, components) && InRange(edges, n) && c < |components|
    requires InSome(TaskLists(components[..c]), x) && y in components[c].tasks
    ensures x != y && (y, x) !in edges
  {
    var lists := TaskLists(components);
    var d :| 0 <= d < c && x in TaskLists(components[..c])[d];
    assert x in lists[d] && y in lists[c];
    if x == y {
      ComponentsDisjoint(edges, n, lists, c, d, x);
    } else if (y, x) in edges {
      EdgeStaysInside(edges, n, lists[c], (y, x));
      ComponentsDisjoint(edges, n, lists, c, d, x);
    }
  }

  lemma InSomePrefix(components: seq<Component>, c: nat, t: nat)
    requires c < |components|
    ensures InSome(TaskLists(components[..c + 1]), t) <==>
            InSome(TaskLists(components[..c]), t) || t in components[c].tasks
  {
    var shorter, longer := TaskLists(components[..c]), TaskLists(components[..c + 1]);
    assert longer == shorter + [components[c].tasks];
    if InSome(shorter, t) {
      var d :| 0 <= d < |shorter| && t in shorter[d];
      assert t in longer[d];
    }
    if t in components[c].tasks {
      assert t in longer[c];
    }
  }

  lemma {:induction false} ComponentMajorExact(edges: Edges, n: nat, components: seq<Component>, count: nat)
    requires ComponentsExact(edges, n, components) && InRange(edges, n) && count <= |components|
    ensures var order := ComponentMajorOrder(components[..count]);
            && Distinct(order) && Respects(edges, order)
            && forall t :: t in order <==> InSome(TaskLists(components[..count]), t)
  {
    if count > 0 {
      var c := count - 1;
      ComponentMajorExact(edges, n, components, c);
      assert components[..count][..c] == components[..c];
      var front, last := ComponentMajorOrder(components[..c]), WaveOrder(components[c].waves);
      ComponentOrderExact(edges, components[c]);
      forall x, y | x in front && y in last ensures x != y && (y, x) !in edges {
        ComponentsApart(edges, n, components, c, x, y);
      }
      ConcatOrders(edges, front, last);
      forall t: nat ensures t in front + last <==> InSome(TaskLists(components[..count]), t) {
        InSomePrefix(components, c, t);
      }
    }
  }

  /** Entering the tasks component by component and wave by wave visits each task once and
      never before a predecessor. */
  lemma ComponentMajorIsLinearExtension(edges: Edges, n: nat, components: seq<Component>)
    requires ComponentsExact(edges, n, components) && InRange(edges, n)
    ensures LinearExtension(edges, n, ComponentMajorOrder(components))
  {
    ComponentMajorExact(edges, n, components, |components|);
    assert components[..|components|] == components;
    var order := ComponentMajorOrder(components);
    var lists := TaskLists(components);
    forall i | 0 <= i < |order| ensures order[i] < n {
      assert order[i] in order;
      var c :| 0 <= c < |lists| && order[i] in lists[c];
      assert IsComponent(edges, n, lists[c]);
    }
    forall t: nat ensures t in Elements(order) <==> t in Below(n) {
    }
    assert Elements(order) == Below(n);
    DistinctSize(order);
  }

  // ------------------------------------------------------------ independence

  /** A task's component and wave. */
  ghost predicate At(components: seq<Component>, t: nat, c: nat, k: nat) {
    c < |components| && k < |components[c].waves| && t in components[c].waves[k]
  }

  lemma EveryTaskPlaced(edges: Edges, n: nat, components: seq<Component>, t: nat) returns (c: nat, k: nat)
    requires ComponentsExact(edges, n, components) && t < n
    ensures At(components, t, c, k)
  {
    var lists := TaskLists(components);
    assert InSome(lists, t);
    c :| 0 <= c < |lists| && t in lists[c];
    var component := components[c];
    var rank := Ranks(component.tasks, component.waves);
    assert t in rank && rank[t] < |component.waves|;
    k := rank[t];
    assert t in component.waves[k];
  }

  lemma PlacedOnce(edges: Edges, n: nat, components: seq<Component>, t: nat, c: nat, k: nat, d: nat, l: nat)
    requires ComponentsExact(edges, n, components) && At(components, t, c, k) && At(components, t, d, l)
    ensures c == d && k == l
  {
    WavesInside(edges, components[c].tasks, components[c].waves, k, t);
    WavesInside(edges, components[d].tasks, components[d].waves, l, t);
    ComponentsDisjoint(edges, n, TaskLists(components), c, d, t);
  }

  /** Tasks that share a wave, or lie in different components, have no path between them. */
  lemma UnorderedPositions(
    edges: Edges, n: nat, components: seq<Component>, a: nat, b: nat, c: nat, k: nat, d: nat, l: nat)
    requires ComponentsExact(edges, n, components) && InRange(edges, n) && a != b
    requires At(components, a, c, k) && At(components, b, d, l) && (c != d || k == l)
    ensures !Reaches(edges, a, b) && !Reaches(edges, b, a)
  {
    WavesInside(edges, components[c].tasks, components[c].waves, k, a);
    WavesInside(edges, components[d].tasks, components[d].waves, l, b);
    NoPathBetween(edges, n, components, a, b, c, k, d, l);
    NoPathBetween(edges, n, components, b, a, d, l, c, k);
  }

  lemma NoPathBetween(
    edges: Edges, n: nat, components: seq<Component>, a: nat, b: nat, c: nat, k: nat, d: nat, l: nat)
    requires ComponentsExact(edges, n, components) && InRange(edges, n) && a != b
    requires At(components, a, c, k) && At(components, b, d, l) && (c != d || k == l)
    requires a in components[c].tasks && b in components[d].tasks
    ensures !Reaches(edges, a, b)
  {
    var lists := TaskLists(components);
    if Reaches(edges, a, b) {
      assert IsComponent(edges, n, lists[c]);
      ReachStaysInside(edges, n, lists[c], a, b);
      ComponentsDisjoint(edges, n, lists, c, d, b);
      ReachesCases(edges, a, b);
      RankRises(edges, Ranks(components[c].tasks, components[c].waves), a, b);
    }
  }

  /** Such tasks never touch the same bytes in conflicting ways. */
  lemma UnorderedPositionsNeverConflict(
    edges: Edges, effects: seq<seq<Effect>>, components: seq<Component>,
    a: nat, b: nat, c: nat, k: nat, d: nat, l: nat)
    requires ComponentsExact(edges, |effects|, components) && InRange(edges, |effects|)
    requires ConflictsOrdered(edges, effects) && a < |effects| && b < |effects| && a != b
    requires At(components, a, c, k) && At(components, b, d, l) && (c != d || k == l)
    ensures !TasksConflict(effects[a], effects[b])
  {
    UnorderedPositions(edges, |effects|, components, a, b, c, k, d, l);
    TasksConflictSymmetric(effects[a], effects[b]);
    if a < b {
      assert !Ordered(edges, a, b);
    } else {
      assert !Ordered(edges, b, a);
    }
  }

  // ------------------------------------------------------------ visibility

  /** A pair of effects whose tasks are ordered and whose bytes conflict. */
  ghost predicate NeedsVisibility(edges: Edges, effects: seq<seq<Effect>>, t: Tag) {
    && t.before < |effects| && t.after < |effects|
    && ProperlyReaches(edges, t.before, t.after)
    && t.producer < |effects[t.before]| && t.consumer < |effects[t.after]|
    && Conflicts(effects[t.before][t.producer], effects[t.after][t.consumer])
  }

  lemma FeedsMeaning(edges: Edges, n: nat, component: Component, k: nat, before: nat, after: nat)
    requires Levelled(edges, component.tasks, component.waves) && k < |component.waves|
    requires IsComponent(edges, n, component.tasks) && InRange(edges, n)
    requires after in component.waves[k] && after < n && before < n
    ensures (before in component.tasks && TaskWaves(n, component)[before] < k && ReachMatrix(edges, n)[before][after])
            <==> ProperlyReaches(edges, before, after)
  {
    WavesInside(edges, component.tasks, component.waves, k, after);
    var rank := Ranks(component.tasks, component.waves);
    if ProperlyReaches(edges, before, after) {
      ProperlyReachesImpliesReaches(edges, before, after);
      ReachStaysInside(edges, n, component.tasks, before, after);
      RankRises(edges, rank, before, after);
      assert TaskWaves(n, component)[before] == rank[before];
    }
    if before in component.tasks && TaskWaves(n, component)[before] < k && Reaches(edges, before, after) {
      assert TaskWaves(n, component)[before] == rank[before];
      ReachesCases(edges, before, after);
    }
  }

  /** A transition's region requirements correspond one to one, and in order, to the conflicting effect
      pairs of happens-before-ordered tasks whose consumer is in its wave; each names the exact bytes. */
  lemma RegionsAreConflicts(edges: Edges, facts: Facts, order: seq<nat>, schedule: Schedule, x: nat)
    returns (tags: seq<Tag>)
    requires ScheduleExact(edges, facts, order, schedule) && InRange(edges, |facts.effects|)
    requires x < |schedule.transitions|
    ensures var tr := schedule.transitions[x];
            && tr.component < |schedule.components| && tr.afterWave < |schedule.components[tr.component].waves|
            && TagsAscending(tags) && |tags| == |tr.regions|
            && (forall t :: t in tags <==>
                  t.after in schedule.components[tr.component].waves[tr.afterWave] && NeedsVisibility(edges, facts.effects, t))
            && (forall y | 0 <= y < |tags| ::
                  NeedsVisibility(edges, facts.effects, tags[y]) && tr.regions[y] == RegionBetween(facts.effects, tags[y]))
  {
    var n := |facts.effects|;
    var tr := schedule.transitions[x];
    assert TransitionExact(edges, facts, schedule.components, tr);
    var component, k := schedule.components[tr.component], tr.afterWave;
    assert ComponentInRange(facts, component);
    assert TaskLists(schedule.components)[tr.component] == component.tasks;
    assert IsComponent(edges, n, component.tasks);
    var b := BoundaryOf(edges, facts, component, k);
    tags :| TagsAscending(tags) && (forall t :: t in tags <==> b.Visible(t)) && RegionsMatch(b, tags, tr.regions);
    forall t ensures b.Visible(t) <==> t.after in component.waves[k] && NeedsVisibility(edges, facts.effects, t) {
      VisibleMeaning(edges, facts, component, k, t);
    }
    forall y | 0 <= y < |tags|
      ensures NeedsVisibility(edges, facts.effects, tags[y])
      ensures tr.regions[y] == RegionBetween(facts.effects, tags[y])
    {
      assert tags[y] in tags;
      assert b.Visible(tags[y]);
    }
  }

  /** The requirement a conflicting pair gives rise to: the intersection of the two ranges. */
  ghost function RegionBetween(effects: seq<seq<Effect>>, t: Tag): (r: RegionRequirement)
    requires t.before < |effects| && t.after < |effects|
    requires t.producer < |effects[t.before]| && t.consumer < |effects[t.after]|
    requires Conflicts(effects[t.before][t.producer], effects[t.after][t.consumer])
    ensures var p, c := effects[t.before][t.producer], effects[t.after][t.consumer];
            && r.producer == t.before && r.consumer == t.after
            && r.allocation == p.allocation == c.allocation && r.epoch == p.epoch == c.epoch
            && r.producerAccess == p.access && r.consumerAccess == c.access
            && forall k :: r.range.Covers(k) <==> p.Covers(k) && c.Covers(k)
  {
    OverlapIsConflict(effects[t.before][t.producer], effects[t.after][t.consumer]);
    RegionOf(effects, t)
  }

  lemma BoundaryIsWellFormed(edges: Edges, facts: Facts, component: Component, k: nat)
    requires ComponentInRange(facts, component) && k < |component.waves|
    ensures BoundaryOf(edges, facts, component, k).WellFormed()
  {}

  lemma VisibleMeaning(edges: Edges, facts: Facts, component: Component, k: nat, t: Tag)
    requires ComponentInRange(facts, component) && k < |component.waves|
    requires Levelled(edges, component.tasks, component.waves)
    requires IsComponent(edges, |facts.effects|, component.tasks) && InRange(edges, |facts.effects|)
    ensures BoundaryOf(edges, facts, component, k).WellFormed()
    ensures BoundaryOf(edges, facts, component, k).Visible(t) <==>
            t.after in component.waves[k] && NeedsVisibility(edges, facts.effects, t)
  {
    var n := |facts.effects|;
    BoundaryIsWellFormed(edges, facts, component, k);
    if t.after in component.waves[k] && t.before < n {
      FeedsMeaning(edges, n, component, k, t.before, t.after);
      PairMeaning(facts.effects, t);
    }
  }

  lemma PairMeaning(effects: seq<seq<Effect>>, t: Tag)
    requires t.before < |effects| && t.after < |effects|
    ensures t.producer < |effects[t.before]| && t.consumer < |effects[t.after]| ==>
              (Overlap(effects[t.before][t.producer], effects[t.after][t.consumer]).Some? <==>
               Conflicts(effects[t.before][t.producer], effects[t.after][t.consumer]))
  {
    if t.producer < |effects[t.before]| && t.consumer < |effects[t.after]| {
      OverlapIsConflict(effects[t.before][t.producer], effects[t.after][t.consumer]);
    }
  }

  /** Every conflicting pair of ordered tasks is recorded, at its consumer's wave and nowhere else. */
  lemma VisibilityComplete(edges: Edges, facts: Facts, order: seq<nat>, schedule: Schedule, t: Tag)
    returns (x: nat)
    requires ScheduleExact(edges, facts, order, schedule) && InRange(edges, |facts.effects|)
    requires NeedsVisibility(edges, facts.effects, t)
    ensures x < |schedule.transitions|
    ensures At(schedule.components, t.after, schedule.transitions[x].component, schedule.transitions[x].afterWave)
    ensures forall y | 0 <= y < |schedule.transitions| && y != x ::
              !At(schedule.components, t.after, schedule.transitions[y].component, schedule.transitions[y].afterWave)
  {
    var n := |facts.effects|;
    var components := schedule.components;
    var c, k := EveryTaskPlaced(edges, n, components, t.after);
    var component := components[c];
    assert TaskLists(components)[c] == component.tasks;
    FeedsMeaning(edges, n, component, k, t.before, t.after);
    assert k != 0;
    assert Kept(facts, component, k);
    assert HasTransition(schedule.transitions, c, k);
    x :| 0 <= x < |schedule.transitions| && schedule.transitions[x].component == c && schedule.transitions[x].afterWave == k;
    forall y | 0 <= y < |schedule.transitions| && y != x
      ensures !At(components, t.after, schedule.transitions[y].component, schedule.transitions[y].afterWave)
    {
      var d, l := schedule.transitions[y].component, schedule.transitions[y].afterWave;
      assert (d, l) != (c, k);
      if At(components, t.after, d, l) {
        PlacedOnce(edges, n, components, t.after, c, k, d, l);
      }
    }
  }
}
