/** Where a derived schedule puts facet uses and representation operations
    (src/core/execution_schedule.cpp). */
module SchedulePlacement {
  import opened Ir
  import opened Digraph
  import opened Sorting
  import opened Components
  import opened Waves
  import opened Transitions
  import opened ExecutionSchedules
  import opened ScheduleProperties
  import opened Wrappers

  // ------------------------------------------------------------ representation operations

  /** The task has an effect on the allocation or uses a facet of it. */
  ghost predicate Touches(facts: Facts, t: nat, allocation: U64) {
    && t < |facts.effects| && t < |facts.uses|
    && (|| (exists j :: 0 <= j < |facts.effects[t]| && facts.effects[t][j].allocation == allocation)
        || (exists j :: 0 <= j < |facts.uses[t]| && facts.uses[t][j].allocation == allocation))
  }

  /** Some task of wave `k` touches the allocation and none of an earlier wave does. */
  ghost predicate FirstTouched(facts: Facts, waves: seq<seq<nat>>, k: nat, allocation: U64) {
    && k < |waves| && (exists t | t in waves[k] :: Touches(facts, t, allocation))
    && forall l, t | 0 <= l < k && t in waves[l] :: !Touches(facts, t, allocation)
  }

  /** The operations are those of the plan entries that are first touched here, each once and in plan order: `entries`
      are their positions in the plan. */
  ghost predicate OperationsList(
    facts: Facts, count: nat, waves: seq<seq<nat>>, k: nat, operations: seq<U32>, entries: seq<nat>)
    requires count <= |facts.representations|
  {
    && StrictlyAscending(entries) && |entries| == |operations|
    && (forall f: nat :: f in entries <==> f < count && FirstTouched(facts, waves, k, facts.representations[f].allocation))
    && (forall y | 0 <= y < |entries| ::
          entries[y] < count && operations[y] == facts.representations[entries[y]].operation)
  }

  lemma TouchesMeaning(facts: Facts, t: nat, allocation: U64)
    requires t < |facts.effects| && t < |facts.uses|
    ensures Touches(facts, t, allocation) <==> TaskUsesAllocation(facts.effects[t], facts.uses[t], allocation)
  {
    if e :| e in facts.effects[t] && e.allocation == allocation {
      var j :| 0 <= j < |facts.effects[t]| && facts.effects[t][j] == e;
    }
    if u :| u in facts.uses[t] && u.allocation == allocation {
      var j :| 0 <= j < |facts.uses[t]| && facts.uses[t][j] == u;
    }
  }

  lemma FirstTouchedMeaning(facts: Facts, waves: seq<seq<nat>>, k: nat, allocation: U64)
    requires k < |waves| && |facts.uses| == |facts.effects|
    requires forall i, t | 0 <= i < |waves| && t in waves[i] :: t < |facts.effects|
    ensures FirstTouched(facts, waves, k, allocation) <==> FirstUse(waves, k, facts.effects, facts.uses, allocation)
  {
    forall i, t | 0 <= i < |waves| && t in waves[i]
      ensures Touches(facts, t, allocation) <==> TaskUsesAllocation(facts.effects[t], facts.uses[t], allocation)
    {
      TouchesMeaning(facts, t, allocation);
    }
  }

  lemma OperationsListNext(
    facts: Facts, f: nat, waves: seq<seq<nat>>, k: nat, operations: seq<U32>, entries: seq<nat>)
    requires f < |facts.representations| && OperationsList(facts, f, waves, k, operations, entries)
    ensures if FirstTouched(facts, waves, k, facts.representations[f].allocation)
            then OperationsList(facts, f + 1, waves, k, operations + [facts.representations[f].operation], entries + [f])
            else OperationsList(facts, f + 1, waves, k, operations, entries)
  {
    var longer := entries + [f];
    forall i, j | 0 <= i < j < |longer| ensures longer[i] < longer[j] {
      if j < |entries| {
        assert entries[i] < entries[j];
      } else {
        assert entries[i] in entries;
      }
    }
    forall g: nat ensures g in longer <==> g in entries || g == f {}
  }

  lemma OperationsAtNext(facts: Facts, f: nat, waves: seq<seq<nat>>, k: nat)
    requires k < |waves| && |facts.uses| == |facts.effects| && f < |facts.representations|
    requires forall i, t | 0 <= i < |waves| && t in waves[i] :: t < |facts.effects|
    ensures OperationsAt(waves, k, facts.effects, facts.uses, facts.representations[..f + 1]) ==
            OperationsAt(waves, k, facts.effects, facts.uses, facts.representations[..f]) +
            if FirstTouched(facts, waves, k, facts.representations[f].allocation) then [facts.representations[f].operation] else []
  {
    assert facts.representations[..f + 1][..f] == facts.representations[..f];
    FirstTouchedMeaning(facts, waves, k, facts.representations[f].allocation);
  }

  lemma {:induction false} OperationsAtList(facts: Facts, count: nat, waves: seq<seq<nat>>, k: nat)
    returns (operations: seq<U32>, entries: seq<nat>)
    requires k < |waves| && |facts.uses| == |facts.effects| && count <= |facts.representations|
    requires forall i, t | 0 <= i < |waves| && t in waves[i] :: t < |facts.effects|
    ensures operations == OperationsAt(waves, k, facts.effects, facts.uses, facts.representations[..count])
    ensures OperationsList(facts, count, waves, k, operations, entries)
  {
    if count == 0 {
      operations, entries := [], [];
    } else {
      var f := count - 1;
      operations, entries := OperationsAtList(facts, f, waves, k);
      OperationsAtNext(facts, f, waves, k);
      OperationsListNext(facts, f, waves, k, operations, entries);
      if FirstTouched(facts, waves, k, facts.representations[f].allocation) {
        operations, entries := operations + [facts.representations[f].operation], entries + [f];
      }
    }
  }

  /** A transition's operations are exactly those of the plan entries whose allocation its wave is the first of the
      component to touch, in plan order. */
  lemma OperationsOfTransition(edges: Edges, facts: Facts, order: seq<nat>, schedule: Schedule, x: nat)
    returns (entries: seq<nat>)
    requires ScheduleExact(edges, facts, order, schedule) && x < |schedule.transitions|
    ensures var tr := schedule.transitions[x];
            && tr.component < |schedule.components| && tr.afterWave < |schedule.components[tr.component].waves|
            && OperationsList(facts, |facts.representations|, schedule.components[tr.component].waves, tr.afterWave,
                              tr.operations, entries)
  {
    var tr := schedule.transitions[x];
    assert TransitionExact(edges, facts, schedule.components, tr);
    assert ComponentInRange(facts, schedule.components[tr.component]);
    var operations, listed := OperationsAtList(facts, |facts.representations|, schedule.components[tr.component].waves, tr.afterWave);
    entries := listed;
    assert facts.representations[..|facts.representations|] == facts.representations;
  }

  /** The least wave that touches an allocation some wave touches. */
  lemma {:induction false} LeastWave(facts: Facts, waves: seq<seq<nat>>, k: nat, allocation: U64) returns (l: nat)
    requires k < |waves| && exists t | t in waves[k] :: Touches(facts, t, allocation)
    ensures l <= k && FirstTouched(facts, waves, l, allocation)
  {
    if i, t :| 0 <= i < k && t in waves[i] && Touches(facts, t, allocation) {
      l := LeastWave(facts, waves, i, allocation);
    } else {
      l := k;
    }
  }

  /** In every component with a task that touches its allocation, a plan entry is listed at exactly one transition; in
      the other components at none. */
  lemma OperationPlacedOnce(edges: Edges, facts: Facts, order: seq<nat>, schedule: Schedule, c: nat, f: nat)
    requires ScheduleExact(edges, facts, order, schedule) && c < |schedule.components| && f < |facts.representations|
    ensures var allocation := facts.representations[f].allocation;
            var here := iset x: nat | x < |schedule.transitions| && schedule.transitions[x].component == c
                          && FirstTouched(facts, schedule.components[c].waves, schedule.transitions[x].afterWave, allocation);
            && ((exists t | t in schedule.components[c].tasks :: Touches(facts, t, allocation)) ==> exists x :: here == iset{x})
            && ((forall t | t in schedule.components[c].tasks :: !Touches(facts, t, allocation)) ==> here == iset{})
  {
    var allocation := facts.representations[f].allocation;
    var component := schedule.components[c];
    var here := iset x: nat | x < |schedule.transitions| && schedule.transitions[x].component == c
                  && FirstTouched(facts, component.waves, schedule.transitions[x].afterWave, allocation);
    assert ComponentInRange(facts, component);
    forall k, t | 0 <= k < |component.waves| && t in component.waves[k] ensures t in component.tasks {
      WavesInside(edges, component.tasks, component.waves, k, t);
    }
    if t :| t in component.tasks && Touches(facts, t, allocation) {
      var k := WaveOf(edges, component, t);
      var l := LeastWave(facts, component.waves, k, allocation);
      var x := TransitionAt(edges, facts, order, schedule, c, l, f);
      forall y | y in here ensures y == x {
        SameWave(facts, component.waves, schedule.transitions[y].afterWave, l, allocation);
        OnePerWave(schedule, x, y);
      }
      assert here == iset{x};
    }
  }

  lemma WaveOf(edges: Edges, component: Component, t: nat) returns (k: nat)
    requires Levelled(edges, component.tasks, component.waves) && t in component.tasks
    ensures k < |component.waves| && t in component.waves[k]
  {
    var rank := Ranks(component.tasks, component.waves);
    assert t in rank && rank[t] < |component.waves|;
    k := rank[t];
  }

  lemma SameWave(facts: Facts, waves: seq<seq<nat>>, k: nat, l: nat, allocation: U64)
    requires FirstTouched(facts, waves, k, allocation) && FirstTouched(facts, waves, l, allocation)
    ensures k == l
  {}

  lemma OnePerWave(schedule: Schedule, x: nat, y: nat)
    requires PositionsAscend(schedule.transitions, |schedule.components|, 0)
    requires x < |schedule.transitions| && y < |schedule.transitions|
    requires schedule.transitions[x].component == schedule.transitions[y].component
    requires schedule.transitions[x].afterWave == schedule.transitions[y].afterWave
    ensures x == y
  {}

  /** Where an entry is first touched there is a transition. */
  lemma TransitionAt(edges: Edges, facts: Facts, order: seq<nat>, schedule: Schedule, c: nat, l: nat, f: nat) returns (x: nat)
    requires ScheduleExact(edges, facts, order, schedule) && c < |schedule.components| && f < |facts.representations|
    requires FirstTouched(facts, schedule.components[c].waves, l, facts.representations[f].allocation)
    ensures x < |schedule.transitions| && schedule.transitions[x].component == c && schedule.transitions[x].afterWave == l
  {
    var component := schedule.components[c];
    assert ComponentInRange(facts, component);
    var operations, entries := OperationsAtList(facts, |facts.representations|, component.waves, l);
    assert facts.representations[..|facts.representations|] == facts.representations;
    assert f in entries;
    assert Kept(facts, component, l);
    assert HasTransition(schedule.transitions, c, l);
    x :| 0 <= x < |schedule.transitions| && schedule.transitions[x].component == c && schedule.transitions[x].afterWave == l;
  }

  // ------------------------------------------------------------ facet uses

  /** A task and the number of one of its facet uses. */
  datatype UseTag = UseTag(task: nat, number: nat)

  predicate UseBefore(a: UseTag, b: UseTag) {
    a.task < b.task || (a.task == b.task && a.number < b.number)
  }

  /** The facet requirements are the uses of the wave's tasks, each once, by task and then in the task's own order. */
  ghost predicate FacetsList(facts: Facts, wave: seq<nat>, facets: seq<FacetRequirement>, tags: seq<UseTag>) {
    && |tags| == |facets| && (forall i, j | 0 <= i < j < |tags| :: UseBefore(tags[i], tags[j]))
    && (forall t :: t in tags <==> t.task in wave && t.task < |facts.uses| && t.number < |facts.uses[t.task]|)
    && (forall y | 0 <= y < |tags| ::
          && tags[y].task < |facts.uses| && tags[y].number < |facts.uses[tags[y].task]|
          && facets[y] == FacetRequirement(tags[y].task, facts.uses[tags[y].task][tags[y].number]))
  }

  function UseTags(task: nat, count: nat): (r: seq<UseTag>)
    ensures |r| == count && forall k | 0 <= k < count :: r[k] == UseTag(task, k)
  {
    seq(count, k requires 0 <= k < count => UseTag(task, k))
  }

  lemma FacetsListNext(facts: Facts, wave: seq<nat>, task: nat, facets: seq<FacetRequirement>, tags: seq<UseTag>)
    requires StrictlyAscending(wave + [task]) && task < |facts.uses| && FacetsList(facts, wave, facets, tags)
    ensures FacetsList(facts, wave + [task], facets + FacetsOfTask(task, facts.uses[task]),
                       tags + UseTags(task, |facts.uses[task]|))
  {
    var added := UseTags(task, |facts.uses[task]|);
    var longer := tags + added;
    assert forall t | t in wave :: t < task by {
      forall t | t in wave ensures t < task {
        var i :| 0 <= i < |wave| && wave[i] == t;
        assert (wave + [task])[i] < (wave + [task])[|wave|];
      }
    }
    forall i, j | 0 <= i < j < |longer| ensures UseBefore(longer[i], longer[j]) {
      if i < |tags| <= j {
        assert tags[i] in tags;
      }
    }
    forall t ensures t in longer <==> t.task in wave + [task] && t.task < |facts.uses| && t.number < |facts.uses[t.task]| {
      assert t in added <==> t.task == task && t.number < |facts.uses[task]| by {
        if t.task == task && t.number < |facts.uses[task]| {
          assert added[t.number] == t;
        }
      }
    }
  }

  lemma {:induction false} FacetRequirementsList(facts: Facts, wave: seq<nat>) returns (tags: seq<UseTag>)
    requires StrictlyAscending(wave) && forall t | t in wave :: t < |facts.uses|
    ensures FacetsList(facts, wave, FacetRequirements(wave, facts.uses), tags)
  {
    if wave == [] {
      tags := [];
    } else {
      var n := |wave| - 1;
      assert wave == wave[..n] + [wave[n]] && wave[n] in wave;
      var front := FacetRequirementsList(facts, wave[..n]);
      FacetsListNext(facts, wave[..n], wave[n], FacetRequirements(wave[..n], facts.uses), front);
      tags := front + UseTags(wave[n], |facts.uses[wave[n]]|);
    }
  }

  lemma FacetsOfTransition(edges: Edges, facts: Facts, order: seq<nat>, schedule: Schedule, x: nat)
    returns (tags: seq<UseTag>)
    requires ScheduleExact(edges, facts, order, schedule) && x < |schedule.transitions|
    ensures var tr := schedule.transitions[x];
            && tr.component < |schedule.components| && tr.afterWave < |schedule.components[tr.component].waves|
            && FacetsList(facts, schedule.components[tr.component].waves[tr.afterWave], tr.facets, tags)
  {
    var tr := schedule.transitions[x];
    assert TransitionExact(edges, facts, schedule.components, tr);
    assert ComponentInRange(facts, schedule.components[tr.component]);
    tags := FacetRequirementsList(facts, schedule.components[tr.component].waves[tr.afterWave]);
  }

  /** A task that uses a facet is in the wave of exactly one transition. */
  lemma FacetUsePlacedOnce(edges: Edges, facts: Facts, order: seq<nat>, schedule: Schedule, t: nat) returns (x: nat)
    requires ScheduleExact(edges, facts, order, schedule) && t < |facts.uses| && facts.uses[t] != []
    ensures x < |schedule.transitions|
    ensures forall y | 0 <= y < |schedule.transitions| ::
              At(schedule.components, t, schedule.transitions[y].component, schedule.transitions[y].afterWave) <==> y == x
  {
    var n := |facts.effects|;
    var c, k := EveryTaskPlaced(edges, n, schedule.components, t);
    var component := schedule.components[c];
    assert ComponentInRange(facts, component);
    var tags := FacetRequirementsList(facts, component.waves[k]);
    assert UseTag(t, 0) in tags;
    assert Kept(facts, component, k);
    assert HasTransition(schedule.transitions, c, k);
    x :| 0 <= x < |schedule.transitions| && schedule.transitions[x].component == c && schedule.transitions[x].afterWave == k;
    forall y | 0 <= y < |schedule.transitions|
      ensures At(schedule.components, t, schedule.transitions[y].component, schedule.transitions[y].afterWave) <==> y == x
    {
      var d, l := schedule.transitions[y].component, schedule.transitions[y].afterWave;
      if At(schedule.components, t, d, l) {
        PlacedOnce(edges, n, schedule.components, t, c, k, d, l);
        OnePerWave(schedule, x, y);
      }
    }
  }

  // ------------------------------------------------------------ transitions

  /** The wave uses a facet, or is the first of its component to touch an allocation of the plan. */
  ghost predicate CarriesFact(facts: Facts, waves: seq<seq<nat>>, k: nat)
    requires k < |waves|
  {
    || (exists t | t in waves[k] :: t < |facts.uses| && facts.uses[t] != [])
    || (exists f :: 0 <= f < |facts.representations| && FirstTouched(facts, waves, k, facts.representations[f].allocation))
  }

  lemma NoFacets(facts: Facts, wave: seq<nat>)
    requires StrictlyAscending(wave) && forall t | t in wave :: t < |facts.uses|
    ensures FacetRequirements(wave, facts.uses) == [] <==> forall t | t in wave :: facts.uses[t] == []
  {
    var tags := FacetRequirementsList(facts, wave);
    if t :| t in wave && facts.uses[t] != [] {
      assert UseTag(t, 0) in tags;
    }
    if tags != [] {
      assert tags[0] in tags;
    }
  }

  lemma NoOperations(facts: Facts, waves: seq<seq<nat>>, k: nat)
    requires k < |waves| && |facts.uses| == |facts.effects|
    requires forall i, t | 0 <= i < |waves| && t in waves[i] :: t < |facts.effects|
    ensures OperationsAt(waves, k, facts.effects, facts.uses, facts.representations) == [] <==>
            forall f | 0 <= f < |facts.representations| :: !FirstTouched(facts, waves, k, facts.representations[f].allocation)
  {
    var operations, entries := OperationsAtList(facts, |facts.representations|, waves, k);
    assert facts.representations[..|facts.representations|] == facts.representations;
    if f: nat :| f < |facts.representations| && FirstTouched(facts, waves, k, facts.representations[f].allocation) {
      assert f in entries;
    }
    if entries != [] {
      assert entries[0] in entries;
    }
  }

  lemma KeptMeaning(facts: Facts, component: Component, k: nat)
    requires ComponentInRange(facts, component) && k < |component.waves|
    ensures Kept(facts, component, k) <==> k != 0 || CarriesFact(facts, component.waves, k)
  {
    NoFacets(facts, component.waves[k]);
    NoOperations(facts, component.waves, k);
  }

  /** There is a transition into every wave but a first one that carries no fact, and only one; it names the wave before
      it if there is one, and only then does it wait for completion and carry regions. */
  lemma TransitionsExactly(edges: Edges, facts: Facts, order: seq<nat>, schedule: Schedule, c: nat, k: nat)
    requires ScheduleExact(edges, facts, order, schedule) && c < |schedule.components| && k < |schedule.components[c].waves|
    ensures HasTransition(schedule.transitions, c, k) <==> k != 0 || CarriesFact(facts, schedule.components[c].waves, k)
    ensures forall x | 0 <= x < |schedule.transitions| ::
              var tr := schedule.transitions[x];
              tr.component == c && tr.afterWave == k ==>
                && tr.beforeWave == (if k == 0 then None else Some(k - 1)) && (tr.completion <==> k != 0)
                && (k == 0 ==> tr.regions == [])
  {
    var component := schedule.components[c];
    assert ComponentInRange(facts, component);
    KeptMeaning(facts, component, k);
    forall x | 0 <= x < |schedule.transitions| && schedule.transitions[x].component == c && schedule.transitions[x].afterWave == k
      ensures Kept(facts, component, k) && TransitionExact(edges, facts, schedule.components, schedule.transitions[x])
      ensures k == 0 ==> schedule.transitions[x].regions == []
    {
      assert TransitionExact(edges, facts, schedule.components, schedule.transitions[x]);
      if k == 0 {
        NoRegionsAtFirst(edges, facts, component, schedule.transitions[x].regions);
      }
    }
  }

  lemma NoMembers(tags: seq<Tag>)
    ensures (forall t :: t !in tags) ==> tags == []
  {
    if tags != [] {
      assert tags[0] in tags;
    }
  }

  lemma NoRegionsAtFirst(edges: Edges, facts: Facts, component: Component, regions: seq<RegionRequirement>)
    requires ComponentInRange(facts, component) && 0 < |component.waves|
    requires RegionsExact(BoundaryOf(edges, facts, component, 0), regions)
    ensures regions == []
  {
    var b := BoundaryOf(edges, facts, component, 0);
    var tags: seq<Tag> :| TagsAscending(tags) && (forall t :: t in tags <==> b.Visible(t)) && RegionsMatch(b, tags, regions);
    forall t ensures !b.Visible(t) {}
    NoMembers(tags);
  }
}
