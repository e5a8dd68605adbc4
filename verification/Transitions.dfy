/** The facts a wave boundary carries: which bytes earlier tasks hand to the wave, which
    facets it uses and which representation operations precede it
    (src/core/execution_schedule.cpp). */
module Transitions {
  import opened Ir
  import opened EffectConflicts
  import opened Digraph
  import opened Sorting
  import opened Wrappers

  datatype FacetUse = FacetUse(index: U32, generation: U32, allocation: U64, epoch: U32, access: Access)

  datatype RepresentationFact = RepresentationFact(operation: U32, allocation: U64)

  datatype RegionRequirement = RegionRequirement(
    producer: nat, consumer: nat, allocation: U64, range: Range, epoch: U32,
    producerAccess: Access, consumerAccess: Access)

  datatype FacetRequirement = FacetRequirement(task: nat, use: FacetUse)

  // ------------------------------------------------------------ region visibility

  /** One pair of effects: the producing task's `producer`-th and the consuming task's `consumer`-th. */
  datatype Tag = Tag(after: nat, before: nat, producer: nat, consumer: nat)

  predicate Less(t: Tag, u: Tag) {
    || t.after < u.after
    || (t.after == u.after && t.before < u.before)
    || (t.after == u.after && t.before == u.before && t.producer < u.producer)
    || (t.after == u.after && t.before == u.before && t.producer == u.producer && t.consumer < u.consumer)
  }

  ghost predicate TagsAscending(tags: seq<Tag>) {
    forall i, j | 0 <= i < j < |tags| :: Less(tags[i], tags[j])
  }

  /** What the scan for the tasks of wave `index` of one component reads. */
  datatype Boundary = Boundary(
    effects: seq<seq<Effect>>, taskWave: seq<nat>, reaches: seq<seq<bool>>, tasks: seq<nat>, wave: seq<nat>, index: nat)
  {
    ghost predicate WellFormed() {
      && |taskWave| == |reaches| == |effects|
      && (forall t | 0 <= t < |reaches| :: |reaches[t]| == |effects|)
      && StrictlyAscending(tasks) && StrictlyAscending(wave)
      && (forall t | t in tasks :: t < |effects|)
      && (forall t | t in wave :: t < |effects|)
    }

    /** An earlier task of the component that leads to a task of the wave. */
    predicate Feeds(before: nat, after: nat)
      requires before < |effects| && after < |effects| && WellFormed()
    {
      taskWave[before] < index && reaches[before][after]
    }

    ghost predicate Visible(t: Tag)
      requires WellFormed()
    {
      && t.after in wave && t.before in tasks && Feeds(t.before, t.after)
      && t.producer < |effects[t.before]| && t.consumer < |effects[t.after]|
      && Overlap(effects[t.before][t.producer], effects[t.after][t.consumer]).Some?
    }
  }

  function RegionOf(effects: seq<seq<Effect>>, t: Tag): RegionRequirement
    requires t.before < |effects| && t.after < |effects|
    requires t.producer < |effects[t.before]| && t.consumer < |effects[t.after]|
    requires Overlap(effects[t.before][t.producer], effects[t.after][t.consumer]).Some?
  {
    var p, c := effects[t.before][t.producer], effects[t.after][t.consumer];
    RegionRequirement(t.before, t.after, p.allocation, Overlap(p, c).value, p.epoch, p.access, c.access)
  }

  /** `tags` lists, once each and in scan order, the visible pairs below `bound`. */
  ghost predicate ScannedTo(b: Boundary, tags: seq<Tag>, bound: Tag)
    requires b.WellFormed()
  {
    TagsAscending(tags) && forall t :: t in tags <==> b.Visible(t) && Less(t, bound)
  }

  /** The region requirements of a boundary, one per visible pair. */
  ghost predicate RegionsMatch(b: Boundary, tags: seq<Tag>, regions: seq<RegionRequirement>)
    requires b.WellFormed()
  {
    && |regions| == |tags|
    && (forall k | 0 <= k < |tags| :: b.Visible(tags[k]))
    && forall k | 0 <= k < |tags| :: regions[k] == RegionOf(b.effects, tags[k])
  }

  ghost predicate RegionsExact(b: Boundary, regions: seq<RegionRequirement>)
    requires b.WellFormed()
  {
    exists tags :: TagsAscending(tags) && (forall t :: t in tags <==> b.Visible(t)) && RegionsMatch(b, tags, regions)
  }

  lemma AdvanceBound(b: Boundary, tags: seq<Tag>, bound: Tag, next: Tag)
    requires b.WellFormed() && ScannedTo(b, tags, bound)
    requires forall t | b.Visible(t) :: Less(t, bound) <==> Less(t, next)
    ensures ScannedTo(b, tags, next)
  {}

  lemma AddTag(b: Boundary, tags: seq<Tag>, t: Tag)
    requires b.WellFormed() && ScannedTo(b, tags, t) && b.Visible(t)
    ensures ScannedTo(b, tags + [t], t.(consumer := t.consumer + 1))
  {
    var longer := tags + [t];
    forall i, j | 0 <= i < j < |longer| ensures Less(longer[i], longer[j]) {
      if j == |tags| {
        assert tags[i] in tags;
      }
    }
    forall u ensures u in longer <==> b.Visible(u) && Less(u, t.(consumer := t.consumer + 1)) {
      assert u in longer <==> u in tags || u == t;
    }
  }

  method CollectRegions(b: Boundary) returns (regions: seq<RegionRequirement>)
    requires b.WellFormed()
    ensures RegionsExact(b, regions)
  {
    regions := [];
    ghost var tags: seq<Tag> := [];
    var n := |b.effects|;
    for p := 0 to |b.wave|
      invariant ScannedTo(b, tags, Tag(if p < |b.wave| then b.wave[p] else n, 0, 0, 0)) && RegionsMatch(b, tags, regions)
    {
      var after := b.wave[p];
      assert after in b.wave;
      regions, tags := CollectFor(b, after, regions, tags);
      assert p + 1 < |b.wave| ==> b.wave[p + 1] in b.wave;
      AdvanceBound(b, tags, Tag(after + 1, 0, 0, 0), Tag(if p + 1 < |b.wave| then b.wave[p + 1] else n, 0, 0, 0));
    }
  }

  /** The scan for one consuming task. */
  method CollectFor(b: Boundary, after: nat, regions0: seq<RegionRequirement>, ghost tags0: seq<Tag>)
    returns (regions: seq<RegionRequirement>, ghost tags: seq<Tag>)
    requires b.WellFormed() && after in b.wave
    requires ScannedTo(b, tags0, Tag(after, 0, 0, 0)) && RegionsMatch(b, tags0, regions0)
    ensures ScannedTo(b, tags, Tag(after + 1, 0, 0, 0)) && RegionsMatch(b, tags, regions)
  {
    regions, tags := regions0, tags0;
    var n := |b.effects|;
    if |b.tasks| > 0 {
      AdvanceBound(b, tags, Tag(after, 0, 0, 0), Tag(after, b.tasks[0], 0, 0));
    }
    for q := 0 to |b.tasks|
      invariant ScannedTo(b, tags, Tag(after, if q < |b.tasks| then b.tasks[q] else n, 0, 0))
      invariant RegionsMatch(b, tags, regions)
    {
      var before := b.tasks[q];
      assert before in b.tasks;
      if b.Feeds(before, after) {
        regions, tags := CollectBetween(b, before, after, regions, tags);
      } else {
        AdvanceBound(b, tags, Tag(after, before, 0, 0), Tag(after, before + 1, 0, 0));
      }
      assert q + 1 < |b.tasks| ==> b.tasks[q + 1] in b.tasks;
      AdvanceBound(b, tags, Tag(after, before + 1, 0, 0), Tag(after, if q + 1 < |b.tasks| then b.tasks[q + 1] else n, 0, 0));
    }
    AdvanceBound(b, tags, Tag(after, n, 0, 0), Tag(after + 1, 0, 0, 0));
  }

  /** The scan over the effects of one producing and one consuming task. */
  method CollectBetween(b: Boundary, before: nat, after: nat, regions0: seq<RegionRequirement>, ghost tags0: seq<Tag>)
    returns (regions: seq<RegionRequirement>, ghost tags: seq<Tag>)
    requires b.WellFormed() && after in b.wave && before in b.tasks && b.Feeds(before, after)
    requires ScannedTo(b, tags0, Tag(after, before, 0, 0)) && RegionsMatch(b, tags0, regions0)
    ensures ScannedTo(b, tags, Tag(after, before + 1, 0, 0)) && RegionsMatch(b, tags, regions)
  {
    regions, tags := regions0, tags0;
    var producers, consumers := b.effects[before], b.effects[after];
    for i := 0 to |producers|
      invariant ScannedTo(b, tags, Tag(after, before, i, 0)) && RegionsMatch(b, tags, regions)
    {
      for j := 0 to |consumers|
        invariant ScannedTo(b, tags, Tag(after, before, i, j)) && RegionsMatch(b, tags, regions)
      {
        ghost var t := Tag(after, before, i, j);
        var overlap := Overlap(producers[i], consumers[j]);
        if overlap.Some? {
          AddTag(b, tags, t);
          tags := tags + [t];
          regions := regions + [RegionRequirement(before, after, producers[i].allocation, overlap.value,
                                                  producers[i].epoch, producers[i].access, consumers[j].access)];
        } else {
          AdvanceBound(b, tags, t, Tag(after, before, i, j + 1));
        }
      }
      AdvanceBound(b, tags, Tag(after, before, i, |consumers|), Tag(after, before, i + 1, 0));
    }
    AdvanceBound(b, tags, Tag(after, before, |producers|, 0), Tag(after, before + 1, 0, 0));
  }

  // ------------------------------------------------------------ facets and representation operations

  function FacetsOfTask(task: nat, uses: seq<FacetUse>): (r: seq<FacetRequirement>)
    ensures |r| == |uses| && forall k | 0 <= k < |r| :: r[k] == FacetRequirement(task, uses[k])
  {
    seq(|uses|, k requires 0 <= k < |uses| => FacetRequirement(task, uses[k]))
  }

  /** Every facet use of the wave's tasks, in task order. */
  function FacetRequirements(wave: seq<nat>, uses: seq<seq<FacetUse>>): seq<FacetRequirement>
    requires forall t | t in wave :: t < |uses|
  {
    if wave == [] then [] else
    var n := |wave| - 1;
    assert wave[n] in wave && forall t | t in wave[..n] :: t in wave;
    FacetRequirements(wave[..n], uses) + FacetsOfTask(wave[n], uses[wave[n]])
  }

  predicate TaskUsesAllocation(effects: seq<Effect>, uses: seq<FacetUse>, allocation: U64) {
    || (exists e | e in effects :: e.allocation == allocation)
    || (exists u | u in uses :: u.allocation == allocation)
  }

  predicate WaveUsesAllocation(wave: seq<nat>, effects: seq<seq<Effect>>, uses: seq<seq<FacetUse>>, allocation: U64)
    requires |uses| == |effects| && forall t | t in wave :: t < |effects|
  {
    exists t | t in wave :: TaskUsesAllocation(effects[t], uses[t], allocation)
  }

  predicate FirstUse(
    waves: seq<seq<nat>>, k: nat, effects: seq<seq<Effect>>, uses: seq<seq<FacetUse>>, allocation: U64)
    requires k < |waves| && |uses| == |effects|
    requires forall i, t | 0 <= i < |waves| && t in waves[i] :: t < |effects|
  {
    && WaveUsesAllocation(waves[k], effects, uses, allocation)
    && forall i | 0 <= i < k :: !WaveUsesAllocation(waves[i], effects, uses, allocation)
  }

  /** The operations whose allocation the component first uses in wave `k`, in plan order. */
  function OperationsAt(
    waves: seq<seq<nat>>, k: nat, effects: seq<seq<Effect>>, uses: seq<seq<FacetUse>>, facts: seq<RepresentationFact>)
    : seq<U32>
    requires k < |waves| && |uses| == |effects|
    requires forall i, t | 0 <= i < |waves| && t in waves[i] :: t < |effects|
  {
    if facts == [] then [] else
    var n := |facts| - 1;
    OperationsAt(waves, k, effects, uses, facts[..n]) +
      if FirstUse(waves, k, effects, uses, facts[n].allocation) then [facts[n].operation] else []
  }

  method CollectFacets(wave: seq<nat>, uses: seq<seq<FacetUse>>) returns (facets: seq<FacetRequirement>)
    requires forall t | t in wave :: t < |uses|
    ensures facets == FacetRequirements(wave, uses)
  {
    facets := [];
    for i := 0 to |wave|
      invariant forall t | t in wave[..i] :: t < |uses|
      invariant facets == FacetRequirements(wave[..i], uses)
    {
      var task := wave[i];
      assert task in wave;
      ghost var before := facets;
      for k := 0 to |uses[task]|
        invariant facets == before + FacetsOfTask(task, uses[task])[..k]
      {
        facets := facets + [FacetRequirement(task, uses[task][k])];
      }
      assert FacetsOfTask(task, uses[task])[..|uses[task]|] == FacetsOfTask(task, uses[task]);
      assert wave[..i + 1] == wave[..i] + [task];
      assert wave[..i + 1][..i] == wave[..i];
    }
    assert wave[..|wave|] == wave;
  }

  method CollectOperations(
    waves: seq<seq<nat>>, k: nat, effects: seq<seq<Effect>>, uses: seq<seq<FacetUse>>, facts: seq<RepresentationFact>)
    returns (operations: seq<U32>)
    requires k < |waves| && |uses| == |effects|
    requires forall i, t | 0 <= i < |waves| && t in waves[i] :: t < |effects|
    ensures operations == OperationsAt(waves, k, effects, uses, facts)
  {
    operations := [];
    for f := 0 to |facts|
      invariant operations == OperationsAt(waves, k, effects, uses, facts[..f])
    {
      var allocation := facts[f].allocation;
      if WaveUsesAllocation(waves[k], effects, uses, allocation) {
        var usedEarlier := false;
        for earlier := 0 to k
          invariant usedEarlier <==> exists i | 0 <= i < earlier :: WaveUsesAllocation(waves[i], effects, uses, allocation)
        {
          usedEarlier := usedEarlier || WaveUsesAllocation(waves[earlier], effects, uses, allocation);
        }
        if !usedEarlier {
          operations := operations + [facts[f].operation];
        }
      }
      assert facts[..f + 1][..f] == facts[..f];
    }
    assert facts[..|facts|] == facts;
  }
}
