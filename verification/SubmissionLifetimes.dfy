/** A submission's lifetimes from start to end (src/backends/device_hal.cpp, `SubmissionLifetimeHold`, and
    src/backends/reference/reference_device_hal.cpp): prepare the hold, commit the representations, acquire, release. */
module SubmissionLifetimes {
  import opened Ir
  import opened Arenas
  import opened ArenaStore
  import opened Wrappers
  import opened Facets
  import opened LifetimeHolds
  import opened HoldConservation
  import opened RepresentationCommit

  // ------------------------------------------------------------ preparing

  function RequestBackings(requests: seq<Request>): (r: seq<PointerRef>)
    ensures |r| == |requests| && forall k | 0 <= k < |r| :: r[k] == requests[k].Backing()
  {
    seq(|requests|, k requires 0 <= k < |requests| => requests[k].Backing())
  }

  function RequestKinds(requests: seq<Request>): (r: seq<FacetKind>)
    ensures |r| == |requests| && forall k | 0 <= k < |r| :: r[k] == requests[k].kind
  {
    seq(|requests|, k requires 0 <= k < |requests| => requests[k].kind)
  }

  /** The use resolves with its kind, and no request transforms the allocation behind it. */
  ghost predicate Usable(memory: Allocations, pool: PoolState, requests: seq<Request>, u: LifetimeUse) {
    && Resolves(pool, memory, u.ref) && pool.slots[u.ref.index].kind == u.kind
    && forall q | q in requests ::
         q.view.allocation != pool.slots[u.ref.index].view.allocation
         || q.view.allocationGeneration != pool.slots[u.ref.index].view.allocationGeneration
  }

  /** What a submission must find before anything is changed. */
  ghost predicate Preparable(
    memory: Allocations, pool: PoolState, touched: seq<PointerRef>, uses: seq<LifetimeUse>, requests: seq<Request>)
  {
    && (forall u | u in uses :: Usable(memory, pool, requests, u))
    && (forall r | r in touched + RequestBackings(requests) :: Live(memory, r))
  }

  /** The allocations touched, those to be transformed and those behind the uses. */
  ghost predicate Inventoried(
    pool: PoolState, touched: seq<PointerRef>, uses: seq<LifetimeUse>, requests: seq<Request>, inventory: seq<PointerRef>)
  {
    forall r :: r in inventory <==>
      r in touched + RequestBackings(requests) ||
      exists u | u in uses :: u.ref.index < |pool.slots| && pool.slots[u.ref.index].Backing() == r
  }

  /** Changes nothing, and refuses a submission whose own transforms would invalidate a facet it uses. */
  method Prepare(touched: seq<PointerRef>, uses: seq<LifetimeUse>, requests: seq<Request>, arena: Arena, pool: FacetPool)
    returns (hold: Option<SubmissionLifetimeHold>)
    ensures hold.Some? <==> Preparable(arena.allocations, pool.State(), touched, uses, requests)
    ensures hold.Some? ==>
              && fresh(hold.value) && hold.value.Valid() && !hold.value.held
              && hold.value.arena == arena && hold.value.pool == pool
              && hold.value.representationKinds == RequestKinds(requests)
              && (forall u :: u in hold.value.facetInventory <==> u in uses)
              && Inventoried(pool.State(), touched, uses, requests, hold.value.allocationInventory)
  {
    var changed := RequestBackings(requests);
    var consistent, sorted := SortUniqueFacets(uses);
    if !consistent {
      return None;
    }
    var resolved, allocations := Backings(arena, pool, sorted, touched + changed);
    if !resolved {
      return None;
    }
    for k := 0 to |sorted|
      invariant forall u | u in sorted[..k] :: Usable(arena.allocations, pool.State(), requests, u)
    {
      assert sorted[..k + 1] == sorted[..k] + [sorted[k]];
      if pool.slots[sorted[k].ref.index].Backing() in changed {
        assert sorted[k] in uses;
        return None;
      }
    }
    assert sorted[..|sorted|] == sorted;
    var inventory := SortUniqueAllocations(allocations);
    if exists r | r in inventory :: !Live(arena.allocations, r) {
      return None;
    }
    var prepared := new SubmissionLifetimeHold(arena, pool, inventory, sorted, RequestKinds(requests));
    hold := Some(prepared);
  }

  // ------------------------------------------------------------ acquiring and releasing as steps

  ghost function RecordOf(hold: SubmissionLifetimeHold): HoldRecord
    reads hold
  {
    HoldRecord(hold.acquiredAllocations, hold.acquiredFacets)
  }

  /** As every count is a number of holds, none is about to wrap. */
  lemma CountsFit(s: System)
    requires Conserved(s) && |s.holds| < U32_MAX
    ensures CountsBelow(s.arena.allocations, s.pool.slots)
  {
    forall id | id in s.arena.allocations ensures s.arena.allocations[id].inFlight < U32_MAX {
      AtMostAll(s.holds, Naming(s.holds, PointerRef(id, s.arena.allocations[id].generation)));
    }
    forall i | 0 <= i < |s.pool.slots| ensures s.pool.slots[i].inFlight < U32_MAX {
      AtMostAll(s.holds, Using(s.holds, i));
    }
  }

  /** What an acquisition names is live and resolves, so it is a step of the run model. */
  lemma AcquisitionNamesLive(
    memory: Allocations, pool: PoolState, inventory: seq<PointerRef>, uses: seq<LifetimeUse>, record: HoldRecord)
    requires Acquirable(memory, pool, inventory, uses)
    requires HoldsExactly(pool, inventory, uses, record.allocations, record.facets)
    ensures forall t | t in record.facets :: Resolves(pool, memory, t)
    ensures forall r | r in record.allocations :: Live(memory, r)
  {
    forall t | t in record.facets ensures Resolves(pool, memory, t) {
      var u :| u in uses && u.ref == t;
      assert UseMatches(memory, pool, u);
    }
    forall r | r in record.allocations ensures Live(memory, r) {
      if r !in inventory {
        var t :| t in record.facets && t.index < |pool.slots| && pool.slots[t.index].Backing() == r;
        assert Resolves(pool, memory, t);
      }
    }
  }

  /** Acquiring a hold is a step of the run model, or changes nothing. */
  method AcquireHeld(hold: SubmissionLifetimeHold, outputs: seq<FacetRef>, ghost holds: Holds, ghost h: nat)
    returns (ok: bool)
    requires Conserved(System(hold.arena.State(), hold.pool.State(), holds)) && h !in holds && |holds| < U32_MAX
    requires hold.Valid() && !hold.held && |outputs| == |hold.representationKinds|
    modifies hold, hold.arena, hold.pool
    ensures ok <==> Acquirable(old(hold.arena.allocations), old(hold.pool.State()), hold.allocationInventory,
                               AllUses(hold.facetInventory, outputs, hold.representationKinds))
    ensures ok ==>
              && hold.Valid() && hold.held
              && HoldsExactly(old(hold.pool.State()), hold.allocationInventory,
                              AllUses(hold.facetInventory, outputs, hold.representationKinds),
                              hold.acquiredAllocations, hold.acquiredFacets)
              && Step(System(old(hold.arena.State()), old(hold.pool.State()), holds), AcquireHold(h, RecordOf(hold)),
                      System(hold.arena.State(), hold.pool.State(), holds[h := RecordOf(hold)]))
    ensures !ok ==> hold.arena.State() == old(hold.arena.State()) && hold.pool.State() == old(hold.pool.State())
  {
    ghost var memory, pool := hold.arena.allocations, hold.pool.State();
    CountsFit(System(hold.arena.State(), pool, holds));
    ok := hold.Acquire(outputs);
    if ok {
      AcquisitionNamesLive(memory, pool, hold.allocationInventory,
                           AllUses(hold.facetInventory, outputs, hold.representationKinds), RecordOf(hold));
    }
  }

  /** Whatever happened since it was acquired, a hold can be released, and that is a step of the run model. */
  method ReleaseHeld(hold: SubmissionLifetimeHold, ghost holds: Holds, ghost h: nat)
    requires Conserved(System(hold.arena.State(), hold.pool.State(), holds))
    requires hold.Valid() && h in holds && holds[h] == RecordOf(hold)
    modifies hold, hold.arena, hold.pool
    ensures hold.Valid() && !hold.held
    ensures Step(System(old(hold.arena.State()), old(hold.pool.State()), holds), ReleaseHold(h),
                 System(hold.arena.State(), hold.pool.State(), holds - {h}))
    ensures Conserved(System(hold.arena.State(), hold.pool.State(), holds - {h}))
  {
    ghost var before := System(hold.arena.State(), hold.pool.State(), holds);
    forall r | r in hold.acquiredAllocations
      ensures Live(hold.arena.allocations, r) && hold.arena.allocations[r.allocation].inFlight > 0
    {
      NamerCounts(hold.arena.allocations, holds, h, r);
    }
    forall t | t in hold.acquiredFacets ensures Outstanding(hold.pool.slots, t) {
      UserCounts(hold.pool.slots, holds, h, t);
    }
    hold.Release();
    StepConserves(before, ReleaseHold(h), System(hold.arena.State(), hold.pool.State(), holds - {h}));
  }

  // ------------------------------------------------------------ a submission begins

  /** After the commit the planned uses and the new facets can be held together. */
  lemma AcquirableAfterCommit(
    touched: seq<PointerRef>, uses: seq<LifetimeUse>, requests: seq<Request>, inventory: seq<PointerRef>,
    sorted: seq<LifetimeUse>, before: ArenaState, pool: PoolState, after: ArenaState, pool': PoolState, outputs: seq<FacetRef>)
    requires Preparable(before.allocations, pool, touched, uses, requests)
    requires Inventoried(pool, touched, uses, requests, inventory) && forall u :: u in sorted <==> u in uses
    requires BesideAll(requests, |requests|, before, pool, after, pool') && |outputs| == |requests|
    requires forall k | 0 <= k < |requests| :: Fulfilled(requests[k], after.allocations, pool', outputs[k])
    ensures Acquirable(after.allocations, pool', inventory, AllUses(sorted, outputs, RequestKinds(requests)))
  {
    var all := AllUses(sorted, outputs, RequestKinds(requests));
    forall u | u in all ensures UseMatches(after.allocations, pool', u) {
      if u in sorted {
        UsableIsSpared(before.allocations, pool, touched, uses, requests, u);
      } else {
        var k :| 0 <= k < |outputs| && u == LifetimeUse(outputs[k], requests[k].kind);
        assert Fulfilled(requests[k], after.allocations, pool', outputs[k]);
      }
    }
    forall r | r in inventory ensures Live(after.allocations, r) {
      InventoryIsLive(before.allocations, pool, touched, uses, requests, inventory, r);
    }
  }

  lemma UsableIsSpared(
    memory: Allocations, pool: PoolState, touched: seq<PointerRef>, uses: seq<LifetimeUse>, requests: seq<Request>, u: LifetimeUse)
    requires Preparable(memory, pool, touched, uses, requests) && u in uses
    ensures UseMatches(memory, pool, u) && Spared(requests, |requests|, pool, u.ref)
  {
    assert Usable(memory, pool, requests, u);
    forall j | 0 <= j < |requests| ensures requests[j].view.allocation != pool.slots[u.ref.index].view.allocation {
      assert RequestBackings(requests)[j] in touched + RequestBackings(requests);
    }
  }

  lemma InventoryIsLive(
    memory: Allocations, pool: PoolState, touched: seq<PointerRef>, uses: seq<LifetimeUse>, requests: seq<Request>,
    inventory: seq<PointerRef>, r: PointerRef)
    requires Preparable(memory, pool, touched, uses, requests)
    requires Inventoried(pool, touched, uses, requests, inventory) && r in inventory
    ensures Live(memory, r)
  {
    if r !in touched + RequestBackings(requests) {
      var u :| u in uses && u.ref.index < |pool.slots| && pool.slots[u.ref.index].Backing() == r;
      assert Usable(memory, pool, requests, u);
    }
  }

  /** The record holds exactly the inventory, the planned uses and the new facets, each of which stands for its request. */
  ghost predicate Retains(
    record: HoldRecord, touched: seq<PointerRef>, uses: seq<LifetimeUse>, requests: seq<Request>, before: PoolState,
    memory: Allocations, pool: PoolState, outputs: seq<FacetRef>)
  {
    && Inventoried(before, touched, uses, requests, record.allocations)
    && (forall t :: t in record.facets <==> t in outputs || exists u | u in uses :: u.ref == t)
    && |outputs| == |requests| && forall k | 0 <= k < |requests| :: Fulfilled(requests[k], memory, pool, outputs[k])
  }

  lemma RetainsAll(
    touched: seq<PointerRef>, uses: seq<LifetimeUse>, requests: seq<Request>, inventory: seq<PointerRef>,
    sorted: seq<LifetimeUse>, before: ArenaState, pool: PoolState, after: ArenaState, pool': PoolState,
    outputs: seq<FacetRef>, record: HoldRecord)
    requires Preparable(before.allocations, pool, touched, uses, requests)
    requires Inventoried(pool, touched, uses, requests, inventory) && forall u :: u in sorted <==> u in uses
    requires BesideAll(requests, |requests|, before, pool, after, pool') && |outputs| == |requests|
    requires forall k | 0 <= k < |requests| :: Fulfilled(requests[k], after.allocations, pool', outputs[k])
    requires HoldsExactly(pool', inventory, AllUses(sorted, outputs, RequestKinds(requests)), record.allocations, record.facets)
    ensures Retains(record, touched, uses, requests, pool, Raised(after.allocations, record.allocations),
                    pool'.(slots := RaisedSlots(pool'.slots, record.facets)), outputs)
  {
    var kinds := RequestKinds(requests);
    var all := AllUses(sorted, outputs, kinds);
    forall t ensures t in record.facets <==> t in outputs || exists u | u in uses :: u.ref == t {
      if t in outputs {
        var k :| 0 <= k < |outputs| && outputs[k] == t;
        assert all[|sorted| + k] == LifetimeUse(t, kinds[k]);
      }
    }
    forall t | t in record.facets
      ensures t.index < |pool'.slots| && pool'.slots[t.index].Backing() in inventory
    {
      if u :| u in uses && u.ref == t {
        UsableIsSpared(before.allocations, pool, touched, uses, requests, u);
      } else {
        var k :| 0 <= k < |outputs| && outputs[k] == t;
        assert Fulfilled(requests[k], after.allocations, pool', outputs[k]);
        assert RequestBackings(requests)[k] in touched + RequestBackings(requests);
      }
    }
    forall k | 0 <= k < |requests|
      ensures Fulfilled(requests[k], Raised(after.allocations, record.allocations),
                        pool'.(slots := RaisedSlots(pool'.slots, record.facets)), outputs[k])
    {
      assert Fulfilled(requests[k], after.allocations, pool', outputs[k]);
    }
  }

  /** Prepares, commits and acquires.  What can fail is the preparation and the commit: after both, the acquisition
      cannot.  Counts stay numbers of holds either way. */
  method BeginSubmission(
    touched: seq<PointerRef>, uses: seq<LifetimeUse>, requests: seq<Request>, operations: seq<Operation>, arena: Arena,
    pool: FacetPool, ghost holds: Holds, ghost h: nat)
    returns (hold: Option<SubmissionLifetimeHold>, outputs: seq<FacetRef>)
    requires Conserved(System(arena.State(), pool.State(), holds)) && h !in holds && |holds| < U32_MAX
    requires OneTransformPerAllocation(requests)
    modifies arena, pool
    ensures hold.Some? <==>
              && Preparable(old(arena.allocations), old(pool.State()), touched, uses, requests)
              && (requests == [] ||
                  (|operations| == |requests| && CommittableFrom(requests, operations, 0, old(arena.State()), old(pool.State()))))
    ensures hold.Some? ==>
              && fresh(hold.value) && hold.value.Valid() && hold.value.held && hold.value.arena == arena && hold.value.pool == pool
              && Retains(RecordOf(hold.value), touched, uses, requests, old(pool.State()), arena.allocations, pool.State(), outputs)
              && Conserved(System(arena.State(), pool.State(), holds[h := RecordOf(hold.value)]))
    ensures hold.None? ==> Conserved(System(arena.State(), pool.State(), holds))
  {
    ghost var before, tokens := arena.State(), pool.State();
    outputs := [];
    hold := Prepare(touched, uses, requests, arena, pool);
    if hold.None? {
      return;
    }
    var commit := CommitRepresentationOperations(requests, operations, arena, pool);
    CountsKeptKeepsHeld(before.allocations, arena.allocations, holds);
    UsesKeptKeepsHeld(tokens.slots, pool.slots, holds);
    if commit.Failed? {
      return None, [];
    }
    if commit.Committed? {
      outputs := commit.facets;
    }
    ghost var committed := System(arena.State(), pool.State(), holds);
    var inventory, sorted := hold.value.allocationInventory, hold.value.facetInventory;
    AcquirableAfterCommit(touched, uses, requests, inventory, sorted, before, tokens, committed.arena, committed.pool, outputs);
    var ok := AcquireHeld(hold.value, outputs, holds, h);
    assert ok;
    StepConserves(committed, AcquireHold(h, RecordOf(hold.value)),
                  System(arena.State(), pool.State(), holds[h := RecordOf(hold.value)]));
    RetainsAll(touched, uses, requests, inventory, sorted, before, tokens, committed.arena, committed.pool, outputs,
               RecordOf(hold.value));
  }
}
