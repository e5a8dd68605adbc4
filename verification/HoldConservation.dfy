/** Any interleaving of submission holds with the rest of the arena's and the pool's operations: in-flight counts are
    exactly the numbers of holds, and what is held stays. */
module HoldConservation {
  import opened Ir
  import opened Arenas
  import opened ArenaStore
  import opened Wrappers
  import opened CanonicalViews
  import opened Facets
  import opened Capabilities
  import opened LifetimeHolds
  import opened Collections

  datatype HoldRecord = HoldRecord(allocations: seq<PointerRef>, facets: seq<FacetRef>)

  type Holds = map<nat, HoldRecord>

  datatype System = System(arena: ArenaState, pool: PoolState, holds: Holds)

  datatype Event =
    | AcquireHold(hold: nat, record: HoldRecord)
    | ReleaseHold(dropped: nat)
    | Other(action: Action)

  /** Counts are touched by holds alone. */
  predicate Unrelated(a: Action) {
    !a.AcquireAllocation? && !a.ReleaseAllocation? && !a.BeginUse? && !a.EndUse?
  }

  /** The guard before `Apply` is there because it is a function of valid pools; runs meet no others. */
  ghost predicate Step(s: System, e: Event, s': System) {
    match e
    case AcquireHold(h, record) =>
      && h !in s.holds && |s.holds| < U32_MAX
      && DistinctRefs(record.allocations) && DistinctTokens(record.facets)
      && (forall r | r in record.allocations :: Live(s.arena.allocations, r))
      && (forall t | t in record.facets :: Resolves(s.pool, s.arena.allocations, t))
      && s' == System(s.arena.(allocations := Raised(s.arena.allocations, record.allocations)),
                      s.pool.(slots := RaisedSlots(s.pool.slots, record.facets)), s.holds[h := record])
    case ReleaseHold(h) =>
      && h in s.holds
      && s' == System(s.arena.(allocations := Lowered(s.arena.allocations, s.holds[h].allocations)),
                      EndedAll(s.pool, s.holds[h].facets), s.holds - {h})
    case Other(a) =>
      && Unrelated(a)
      && (PoolValid(s.pool) ==>
            var after := Apply(Device(s.arena, s.pool, []), a);
            s' == System(after.arena, after.pool, s.holds))
  }

  // ------------------------------------------------------------ the invariant

  ghost function Naming(holds: Holds, r: PointerRef): set<nat> {
    set h | h in holds && r in holds[h].allocations
  }

  predicate UsesSlot(facets: seq<FacetRef>, i: nat) {
    exists t | t in facets :: t.index == i
  }

  ghost function Using(holds: Holds, i: nat): set<nat> {
    set h | h in holds && UsesSlot(holds[h].facets, i)
  }

  ghost predicate AllocationsHeld(memory: Allocations, holds: Holds) {
    && (forall h, r | h in holds && r in holds[h].allocations :: Live(memory, r))
    && (forall id | id in memory :: memory[id].inFlight == |Naming(holds, PointerRef(id, memory[id].generation))|)
  }

  ghost predicate FacetsHeld(slots: seq<FacetSlot>, holds: Holds) {
    && (forall h, t | h in holds && t in holds[h].facets ::
          t.index < |slots| && slots[t.index].inFlightGeneration == t.generation)
    && (forall i | 0 <= i < |slots| :: slots[i].inFlight == |Using(holds, i)|)
  }

  /** Each in-flight count is the number of holds that name the object. */
  ghost predicate Conserved(s: System) {
    && PoolValid(s.pool)
    && AllocationsHeld(s.arena.allocations, s.holds)
    && FacetsHeld(s.pool.slots, s.holds)
    && (forall h | h in s.holds :: DistinctRefs(s.holds[h].allocations) && DistinctTokens(s.holds[h].facets))
  }

  // ------------------------------------------------------------ holds come and go

  lemma NamingAdds(holds: Holds, h: nat, record: HoldRecord, r: PointerRef)
    requires h !in holds
    ensures |Naming(holds[h := record], r)| == |Naming(holds, r)| + if r in record.allocations then 1 else 0
  {
    var before, after := Naming(holds, r), Naming(holds[h := record], r);
    assert after == if r in record.allocations then before + {h} else before;
  }

  lemma UsingAdds(holds: Holds, h: nat, record: HoldRecord, i: nat)
    requires h !in holds
    ensures |Using(holds[h := record], i)| == |Using(holds, i)| + if UsesSlot(record.facets, i) then 1 else 0
  {
    var before, after := Using(holds, i), Using(holds[h := record], i);
    assert after == if UsesSlot(record.facets, i) then before + {h} else before;
  }

  lemma AtMostAll(holds: Holds, some: set<nat>)
    requires some <= holds.Keys
    ensures |some| <= |holds|
  {
    SubsetSize(some, holds.Keys);
    assert |holds.Keys| == |holds|;
  }

  lemma AcquireKeepsAllocations(memory: Allocations, holds: Holds, h: nat, record: HoldRecord)
    requires AllocationsHeld(memory, holds) && h !in holds && |holds| < U32_MAX
    requires forall r | r in record.allocations :: Live(memory, r)
    ensures AllocationsHeld(Raised(memory, record.allocations), holds[h := record])
  {
    var after, longer := Raised(memory, record.allocations), holds[h := record];
    forall g, r | g in longer && r in longer[g].allocations ensures Live(after, r) {
      assert Live(memory, r);
    }
    forall id | id in after
      ensures after[id].inFlight == |Naming(longer, PointerRef(id, after[id].generation))|
    {
      var r := PointerRef(id, memory[id].generation);
      NamingAdds(holds, h, record, r);
      AtMostAll(holds, Naming(holds, r));
    }
  }

  /** Tokens that resolve are of their slots' generations, so distinct ones use distinct slots. */
  lemma UsesSlotExactly(pool: PoolState, memory: Allocations, facets: seq<FacetRef>, i: nat)
    requires i < |pool.slots| && forall t | t in facets :: Resolves(pool, memory, t)
    ensures UsesSlot(facets, i) <==> FacetRef(i, pool.slots[i].generation) in facets
  {
    if t :| t in facets && t.index == i {
      assert t == FacetRef(i, pool.slots[i].generation);
    }
    if FacetRef(i, pool.slots[i].generation) in facets {
      assert FacetRef(i, pool.slots[i].generation).index == i;
    }
  }

  lemma AcquireKeepsFacets(pool: PoolState, memory: Allocations, holds: Holds, h: nat, record: HoldRecord)
    requires PoolValid(pool) && FacetsHeld(pool.slots, holds) && h !in holds && |holds| < U32_MAX
    requires forall t | t in record.facets :: Resolves(pool, memory, t)
    ensures FacetsHeld(RaisedSlots(pool.slots, record.facets), holds[h := record])
  {
    var slots, after, longer := pool.slots, RaisedSlots(pool.slots, record.facets), holds[h := record];
    forall i | 0 <= i < |slots| ensures after[i].inFlight == |Using(longer, i)| {
      UsesSlotExactly(pool, memory, record.facets, i);
      UsingAdds(holds, h, record, i);
      AtMostAll(holds, Using(holds, i));
    }
    forall g, t | g in longer && t in longer[g].facets
      ensures t.index < |after| && after[t.index].inFlightGeneration == t.generation
    {
      if g == h {
        assert Resolves(pool, memory, t);
      } else {
        UserCounts(slots, holds, g, t);
        assert SlotValid(slots[t.index]);
        UsesSlotExactly(pool, memory, record.facets, t.index);
        ResolvingIsActive(pool, memory, record.facets, t.index);
      }
    }
  }

  lemma ResolvingIsActive(pool: PoolState, memory: Allocations, facets: seq<FacetRef>, i: nat)
    requires i < |pool.slots| && forall t | t in facets :: Resolves(pool, memory, t)
    ensures FacetRef(i, pool.slots[i].generation) in facets ==> pool.slots[i].active
  {
    if FacetRef(i, pool.slots[i].generation) in facets {
      assert Resolves(pool, memory, FacetRef(i, pool.slots[i].generation));
    }
  }

  /** A slot some hold uses has a positive count. */
  lemma UserCounts(slots: seq<FacetSlot>, holds: Holds, h: nat, t: FacetRef)
    requires FacetsHeld(slots, holds) && h in holds && t in holds[h].facets
    ensures t.index < |slots| && slots[t.index].inFlight > 0 && h in Using(holds, t.index)
  {
    assert UsesSlot(holds[h].facets, t.index);
    assert h in Using(holds, t.index);
    SubsetSize({h}, Using(holds, t.index));
  }

  lemma NamerCounts(memory: Allocations, holds: Holds, h: nat, r: PointerRef)
    requires AllocationsHeld(memory, holds) && h in holds && r in holds[h].allocations
    ensures Live(memory, r) && memory[r.allocation].inFlight > 0
  {
    assert h in Naming(holds, r);
    SubsetSize({h}, Naming(holds, r));
  }

  lemma Restored(holds: Holds, h: nat)
    requires h in holds
    ensures (holds - {h})[h := holds[h]] == holds
  {}

  lemma ReleaseKeepsAllocations(memory: Allocations, holds: Holds, h: nat)
    requires AllocationsHeld(memory, holds) && h in holds
    ensures AllocationsHeld(Lowered(memory, holds[h].allocations), holds - {h})
  {
    var record := holds[h];
    var after := Lowered(memory, record.allocations);
    Restored(holds, h);
    forall g, r | g in holds - {h} && r in (holds - {h})[g].allocations ensures Live(after, r) {
      assert Live(memory, r);
    }
    forall id | id in after
      ensures after[id].inFlight == |Naming(holds - {h}, PointerRef(id, after[id].generation))|
    {
      NamingAdds(holds - {h}, h, record, PointerRef(id, memory[id].generation));
    }
  }

  lemma ReleaseKeepsFacets(slots: seq<FacetSlot>, holds: Holds, h: nat)
    requires FacetsHeld(slots, holds) && h in holds
    ensures FacetsHeld(LoweredSlots(slots, holds[h].facets), holds - {h})
  {
    var record := holds[h];
    var after := LoweredSlots(slots, record.facets);
    Restored(holds, h);
    forall i | 0 <= i < |slots| ensures after[i].inFlight == |Using(holds - {h}, i)| {
      UsingAdds(holds - {h}, h, record, i);
      if t :| t in record.facets && t.index == i {
        assert t == FacetRef(i, slots[i].inFlightGeneration);
      }
      if FacetRef(i, slots[i].inFlightGeneration) in record.facets {
        assert FacetRef(i, slots[i].inFlightGeneration).index == i;
      }
    }
    forall g, t | g in holds - {h} && t in (holds - {h})[g].facets
      ensures t.index < |after| && after[t.index].inFlightGeneration == t.generation
    {
      assert g in holds && t in holds[g].facets;
    }
  }

  // ------------------------------------------------------------ everything else

  lemma ArenaKeepsCounts(s: ArenaState, a: Action)
    requires Unrelated(a)
    ensures CountsKept(s.allocations, ApplyToArena(s, a).allocations)
  {}

  lemma NamedIsLive(memory: Allocations, holds: Holds, r: PointerRef)
    requires AllocationsHeld(memory, holds)
    ensures Naming(holds, r) == {} || Live(memory, r)
  {
    if h :| h in Naming(holds, r) {
      assert h in holds && r in holds[h].allocations;
    }
  }

  lemma CountsKeptKeepsHeld(before: Allocations, after: Allocations, holds: Holds)
    requires CountsKept(before, after) && AllocationsHeld(before, holds)
    ensures AllocationsHeld(after, holds)
  {
    forall h, r | h in holds && r in holds[h].allocations ensures Live(after, r) {
      NamerCounts(before, holds, h, r);
    }
    forall id | id in after ensures after[id].inFlight == |Naming(holds, PointerRef(id, after[id].generation))| {
      var r := PointerRef(id, after[id].generation);
      NamedIsLive(before, holds, r);
    }
  }

  lemma PoolKeepsUses(arena: ArenaState, pool: PoolState, a: Action)
    requires PoolValid(pool) && Unrelated(a)
    ensures var after := Apply(Device(arena, pool, []), a);
            PoolValid(after.pool) && UsesKept(pool.slots, after.pool.slots)
  {
    if a.AcquireFacet? {
      IssuedValid(pool, arena.allocations, a.view, a.kind);
      if Issued(pool, arena.allocations, a.view, a.kind).Some? {
        IssueKeepsUses(pool, arena.allocations, a.view, a.kind);
      }
    } else {
      PoolProgresses(Device(arena, pool, []), a);
      if a.RetireStale? {
        SweepKeepsUses(pool, arena.allocations);
      }
    }
  }

  lemma UsesKeptKeepsHeld(before: seq<FacetSlot>, after: seq<FacetSlot>, holds: Holds)
    requires UsesKept(before, after) && FacetsHeld(before, holds)
    ensures FacetsHeld(after, holds)
  {
    forall h, t | h in holds && t in holds[h].facets
      ensures t.index < |after| && after[t.index].inFlightGeneration == t.generation
    {
      UserCounts(before, holds, h, t);
    }
    forall i | |before| <= i < |after| ensures Using(holds, i) == {} {
      forall h | h in holds ensures !UsesSlot(holds[h].facets, i) {
        if t :| t in holds[h].facets && t.index == i {
          UserCounts(before, holds, h, t);
        }
      }
    }
  }

  // ------------------------------------------------------------ the theorem

  lemma RaisedKeepsPool(pool: PoolState, memory: Allocations, facets: seq<FacetRef>)
    requires PoolValid(pool) && (forall t | t in facets :: Resolves(pool, memory, t))
    ensures PoolValid(pool.(slots := RaisedSlots(pool.slots, facets)))
  {
    var after := RaisedSlots(pool.slots, facets);
    forall i | 0 <= i < |after|
      ensures SlotValid(after[i]) && after[i].active == pool.slots[i].active
      ensures !after[i].active ==> after[i] == pool.slots[i]
    {
      ResolvingIsActive(pool, memory, facets, i);
      assert SlotValid(pool.slots[i]);
    }
  }

  /** Every step keeps each count equal to the number of holds. */
  lemma StepConserves(s: System, e: Event, s': System)
    requires Conserved(s) && Step(s, e, s')
    ensures Conserved(s')
  {
    match e
    case AcquireHold(h, record) =>
      AcquireKeepsAllocations(s.arena.allocations, s.holds, h, record);
      AcquireKeepsFacets(s.pool, s.arena.allocations, s.holds, h, record);
      RaisedKeepsPool(s.pool, s.arena.allocations, record.facets);
    case ReleaseHold(h) =>
      ReleaseKeepsAllocations(s.arena.allocations, s.holds, h);
      ReleaseKeepsFacets(s.pool.slots, s.holds, h);
      forall t | t in s.holds[h].facets ensures Outstanding(s.pool.slots, t) {
        UserCounts(s.pool.slots, s.holds, h, t);
      }
      EndedAllMeaning(s.pool, s.holds[h].facets);
    case Other(a) =>
      ArenaKeepsCounts(s.arena, a);
      CountsKeptKeepsHeld(s.arena.allocations, s'.arena.allocations, s.holds);
      PoolKeepsUses(s.arena, s.pool, a);
      UsesKeptKeepsHeld(s.pool.slots, s'.pool.slots, s.holds);
  }

  predicate IsNewSystem(s: System) {
    s == System(NewDevice(s.arena.budget).arena, NewDevice(s.arena.budget).pool, map[])
  }

  ghost predicate IsHoldRun(states: seq<System>, events: seq<Event>) {
    && |states| == |events| + 1
    && (forall k: nat | k < |events| :: StepAt(states, events, k))
  }

  ghost predicate StepAt(states: seq<System>, events: seq<Event>, k: nat) {
    k + 1 < |states| && k < |events| && Step(states[k], events[k], states[k + 1])
  }

  /** In every state of every run each in-flight count equals the number of holds naming that object. */
  lemma {:induction false} RunsConserve(states: seq<System>, events: seq<Event>, k: nat)
    requires IsHoldRun(states, events) && IsNewSystem(states[0]) && k < |states|
    ensures Conserved(states[k])
  {
    if k > 0 {
      RunsConserve(states, events, k - 1);
      assert StepAt(states, events, k - 1);
      StepConserves(states[k - 1], events[k - 1], states[k]);
    }
  }

  /** A held allocation is live and cannot be retired, transformed or consumed, whatever proof is offered. */
  lemma HeldIsPinned(s: System, h: nat, r: PointerRef, epoch: U32, proof: ConsumeProof)
    requires Conserved(s) && h in s.holds && r in s.holds[h].allocations
    ensures Live(s.arena.allocations, r)
    ensures ObjectRetired(s.arena, r).None? && Transformed(s.arena, r).None?
    ensures RepresentationConsumed(s.arena, RepresentationRef(r.allocation, r.generation, epoch), proof).None?
    ensures Consumed(s.arena, RepresentationRef(r.allocation, r.generation, epoch), proof).None?
  {
    NamerCounts(s.arena.allocations, s.holds, h, r);
  }

  /** Whatever happened since a hold was acquired, each of its ignored release results is a success. */
  lemma ReleasesSucceed(s: System, h: nat)
    requires Conserved(s) && h in s.holds
    ensures forall r | r in s.holds[h].allocations :: Released(s.arena, r).Some?
    ensures forall t | t in s.holds[h].facets :: Ended(s.pool, t).Some?
  {
    forall r | r in s.holds[h].allocations ensures Released(s.arena, r).Some? {
      NamerCounts(s.arena.allocations, s.holds, h, r);
    }
    forall t | t in s.holds[h].facets ensures Ended(s.pool, t).Some? {
      UserCounts(s.pool.slots, s.holds, h, t);
    }
  }

  /** Once every hold is released all counts are zero and every inactive slot is free again. */
  lemma NothingHeldNothingCounted(s: System)
    requires Conserved(s) && s.holds == map[]
    ensures forall id | id in s.arena.allocations :: s.arena.allocations[id].inFlight == 0
    ensures forall i: nat | i < |s.pool.slots| :: s.pool.slots[i].inFlight == 0 && (i in s.pool.free <==> !s.pool.slots[i].active)
  {
    forall r ensures Naming(s.holds, r) == {} {}
    forall i ensures Using(s.holds, i) == {} {}
  }
}
