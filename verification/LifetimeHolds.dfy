/** A submission's hold on the allocations and facets it uses (src/backends/device_hal.h, src/backends/device_hal.cpp,
    `SubmissionLifetimeHold`): all acquired, or none. */
module LifetimeHolds {
  import opened Ir
  import opened Arenas
  import opened ArenaStore
  import opened Wrappers
  import opened CanonicalViews
  import opened Facets

  datatype LifetimeUse = LifetimeUse(ref: FacetRef, kind: FacetKind)

  // ------------------------------------------------------------ sorted, duplicate-free inventories

  predicate AllocationLess(a: PointerRef, b: PointerRef) {
    a.allocation < b.allocation || (a.allocation == b.allocation && a.generation < b.generation)
  }

  predicate FacetLess(a: FacetRef, b: FacetRef) {
    a.index < b.index || (a.index == b.index && a.generation < b.generation)
  }

  ghost predicate AllocationsAscend(refs: seq<PointerRef>) {
    forall i, j | 0 <= i < j < |refs| :: AllocationLess(refs[i], refs[j])
  }

  ghost predicate UsesAscend(uses: seq<LifetimeUse>) {
    forall i, j | 0 <= i < j < |uses| :: FacetLess(uses[i].ref, uses[j].ref)
  }

  method SortUniqueAllocations(refs: seq<PointerRef>) returns (r: seq<PointerRef>)
    ensures AllocationsAscend(r)
    ensures forall x :: x in r <==> x in refs
  {
    r := [];
    for k := 0 to |refs|
      invariant AllocationsAscend(r)
      invariant forall x :: x in r <==> x in refs[..k]
    {
      var at := 0;
      while at < |r| && AllocationLess(r[at], refs[k])
        invariant 0 <= at <= |r| && forall i | 0 <= i < at :: AllocationLess(r[i], refs[k])
      {
        at := at + 1;
      }
      assert refs[..k + 1] == refs[..k] + [refs[k]];
      if at == |r| || r[at] != refs[k] {
        AllocationInserted(r, at, refs[k]);
        r := r[..at] + [refs[k]] + r[at..];
      }
    }
    assert refs[..|refs|] == refs;
  }

  lemma AllocationInserted(r: seq<PointerRef>, at: nat, x: PointerRef)
    requires AllocationsAscend(r) && at <= |r| && (forall i | 0 <= i < at :: AllocationLess(r[i], x))
    requires at < |r| ==> AllocationLess(x, r[at])
    ensures AllocationsAscend(r[..at] + [x] + r[at..])
    ensures forall y :: y in r[..at] + [x] + r[at..] <==> y in r || y == x
  {
    var longer := r[..at] + [x] + r[at..];
    assert r == r[..at] + r[at..];
    forall i | 0 <= i < |longer| ensures longer[i] == if i < at then r[i] else if i == at then x else r[i - 1] {}
    forall j | at <= j < |r| ensures AllocationLess(x, r[j]) {
      if j > at {
        assert AllocationLess(r[at], r[j]);
      }
    }
  }

  /** Fails exactly when one token is listed with two kinds. */
  method SortUniqueFacets(uses: seq<LifetimeUse>) returns (ok: bool, r: seq<LifetimeUse>)
    ensures ok <==> forall x, y | x in uses && y in uses && x.ref == y.ref :: x.kind == y.kind
    ensures ok ==> UsesAscend(r) && forall x :: x in r <==> x in uses
  {
    r := [];
    for k := 0 to |uses|
      invariant UsesAscend(r)
      invariant forall x :: x in r <==> x in uses[..k]
    {
      var at := 0;
      while at < |r| && FacetLess(r[at].ref, uses[k].ref)
        invariant 0 <= at <= |r| && forall i | 0 <= i < at :: FacetLess(r[i].ref, uses[k].ref)
      {
        at := at + 1;
      }
      assert uses[..k + 1] == uses[..k] + [uses[k]];
      if at == |r| || r[at].ref != uses[k].ref {
        assert r == r[..at] + r[at..];
        r := r[..at] + [uses[k]] + r[at..];
      } else if r[at].kind != uses[k].kind {
        assert r[at] in uses[..k] && r[at] in uses;
        return false, r;
      }
    }
    assert uses[..|uses|] == uses;
    UniqueKinds(r);
    ok := true;
  }

  lemma UniqueKinds(r: seq<LifetimeUse>)
    requires UsesAscend(r)
    ensures forall x, y | x in r && y in r && x.ref == y.ref :: x.kind == y.kind
  {}

  // ------------------------------------------------------------ what acquiring and releasing do

  predicate NamedBy(refs: seq<PointerRef>, memory: Allocations, id: U64)
    requires id in memory
  {
    PointerRef(id, memory[id].generation) in refs
  }

  /** One more use of every named allocation. */
  function Raised(memory: Allocations, refs: seq<PointerRef>): Allocations {
    map id | id in memory :: if NamedBy(refs, memory, id) then memory[id].(inFlight := Bump32(memory[id].inFlight)) else memory[id]
  }

  function Lowered32(x: U32): U32 {
    if x == 0 then U32_MAX else x - 1
  }

  function Lowered(memory: Allocations, refs: seq<PointerRef>): Allocations {
    map id | id in memory :: if NamedBy(refs, memory, id) then memory[id].(inFlight := Lowered32(memory[id].inFlight)) else memory[id]
  }

  /** One more use of every named slot. */
  function RaisedSlots(slots: seq<FacetSlot>, refs: seq<FacetRef>): (r: seq<FacetSlot>)
    ensures |r| == |slots|
  {
    seq(|slots|, i requires 0 <= i < |slots| =>
      if FacetRef(i, slots[i].generation) in refs
      then slots[i].(inFlight := Bump32(slots[i].inFlight), inFlightGeneration := slots[i].generation) else slots[i])
  }

  /** One less use of every slot whose uses began under a named token. */
  function LoweredSlots(slots: seq<FacetSlot>, refs: seq<FacetRef>): (r: seq<FacetSlot>)
    ensures |r| == |slots|
  {
    seq(|slots|, i requires 0 <= i < |slots| =>
      if FacetRef(i, slots[i].inFlightGeneration) in refs
      then slots[i].(inFlight := Lowered32(slots[i].inFlight)) else slots[i])
  }

  ghost predicate DistinctTokens(refs: seq<FacetRef>) {
    forall i, j | 0 <= i < j < |refs| :: refs[i] != refs[j]
  }

  lemma RaisedNext(memory: Allocations, refs: seq<PointerRef>, k: nat)
    requires DistinctRefs(refs) && k < |refs| && Live(memory, refs[k])
    ensures Live(Raised(memory, refs[..k]), refs[k])
    ensures var before := Raised(memory, refs[..k]);
            var a := before[refs[k].allocation];
            Raised(memory, refs[..k + 1]) == before[refs[k].allocation := a.(inFlight := Bump32(a.inFlight))]
  {
    assert refs[..k + 1] == refs[..k] + [refs[k]];
    assert refs[k] !in refs[..k];
    assert forall id | id in memory :: NamedBy(refs[..k + 1], memory, id) <==> NamedBy(refs[..k], memory, id) || refs[k] == PointerRef(id, memory[id].generation);
  }

  lemma RaisedSlotsNext(slots: seq<FacetSlot>, refs: seq<FacetRef>, k: nat)
    requires DistinctTokens(refs) && k < |refs|
    requires refs[k].index < |slots| && slots[refs[k].index].generation == refs[k].generation
    ensures var before := RaisedSlots(slots, refs[..k]);
            var slot := before[refs[k].index];
            && slot == slots[refs[k].index]
            && RaisedSlots(slots, refs[..k + 1]) ==
               before[refs[k].index := slot.(inFlight := Bump32(slot.inFlight), inFlightGeneration := refs[k].generation)]
  {
    assert refs[..k + 1] == refs[..k] + [refs[k]];
    assert refs[k] !in refs[..k];
  }

  lemma LoweredNext(memory: Allocations, refs: seq<PointerRef>, k: nat)
    requires DistinctRefs(refs) && k < |refs| && Live(memory, refs[k]) && memory[refs[k].allocation].inFlight > 0
    ensures var before := Lowered(memory, refs[k + 1..]);
            && Live(before, refs[k]) && before[refs[k].allocation] == memory[refs[k].allocation]
            && var a := before[refs[k].allocation];
               Lowered(memory, refs[k..]) == before[refs[k].allocation := a.(inFlight := a.inFlight - 1)]
  {
    assert refs[k..] == [refs[k]] + refs[k + 1..];
    assert refs[k] !in refs[k + 1..];
    assert forall id | id in memory :: NamedBy(refs[k..], memory, id) <==> NamedBy(refs[k + 1..], memory, id) || refs[k] == PointerRef(id, memory[id].generation);
  }

  lemma LoweredSlotsNext(slots: seq<FacetSlot>, refs: seq<FacetRef>, k: nat)
    requires DistinctTokens(refs) && k < |refs| && Outstanding(slots, refs[k])
    ensures var before := LoweredSlots(slots, refs[k + 1..]);
            var slot := before[refs[k].index];
            && slot == slots[refs[k].index]
            && LoweredSlots(slots, refs[k..]) == before[refs[k].index := slot.(inFlight := slot.inFlight - 1)]
  {
    assert refs[k..] == [refs[k]] + refs[k + 1..];
    assert refs[k] !in refs[k + 1..];
  }

  /** The pool after the uses of the tokens have been ended, the last one first. */
  function EndedAll(s: PoolState, tokens: seq<FacetRef>): PoolState {
    if tokens == [] then s
    else
      var rest := EndedAll(s, tokens[1..]);
      var r := Ended(rest, tokens[0]);
      if r.None? then rest else r.value
  }

  /** Ending outstanding uses keeps the free list exact and lowers each count once. */
  lemma {:induction false} EndedAllMeaning(s: PoolState, tokens: seq<FacetRef>)
    requires PoolValid(s) && DistinctTokens(tokens) && forall t | t in tokens :: Outstanding(s.slots, t)
    ensures PoolValid(EndedAll(s, tokens)) && EndedAll(s, tokens).slots == LoweredSlots(s.slots, tokens)
  {
    if tokens == [] {
      assert LoweredSlots(s.slots, tokens) == s.slots;
    } else {
      var rest := EndedAll(s, tokens[1..]);
      EndedAllMeaning(s, tokens[1..]);
      assert tokens[0] in tokens && tokens[0..] == tokens;
      LoweredSlotsNext(s.slots, tokens, 0);
      EndedValid(rest, tokens[0]);
    }
  }

  predicate Outstanding(slots: seq<FacetSlot>, t: FacetRef) {
    t.index < |slots| && slots[t.index].inFlight > 0 && slots[t.index].inFlightGeneration == t.generation
  }

  // ------------------------------------------------------------ the loops

  /** Acquires the allocations in turn and stops at the first that is not live. */
  method AcquireEach(arena: Arena, refs: seq<PointerRef>) returns (acquired: seq<PointerRef>)
    requires DistinctRefs(refs)
    modifies arena
    ensures acquired <= refs && (forall r | r in acquired :: Live(old(arena.allocations), r))
    ensures acquired != refs ==> exists r | r in refs :: !Live(old(arena.allocations), r)
    ensures arena.State() == old(arena.State()).(allocations := Raised(old(arena.allocations), acquired))
  {
    ghost var before := arena.State();
    assert Raised(before.allocations, []) == before.allocations;
    for k := 0 to |refs|
      invariant forall r | r in refs[..k] :: Live(before.allocations, r)
      invariant arena.State() == before.(allocations := Raised(before.allocations, refs[..k]))
    {
      assert refs[..k + 1] == refs[..k] + [refs[k]];
      RaisedLive(before.allocations, refs[..k], refs[k]);
      var ok := arena.Acquire(refs[k]);
      if !ok {
        assert refs[k] in refs;
        return refs[..k];
      }
      RaisedNext(before.allocations, refs, k);
    }
    assert refs[..|refs|] == refs;
    acquired := refs;
  }

  lemma RaisedLive(memory: Allocations, refs: seq<PointerRef>, r: PointerRef)
    ensures Live(Raised(memory, refs), r) <==> Live(memory, r)
  {}

  /** Begins uses of tokens that all resolve; none of the calls can fail. */
  method BeginEach(arena: Arena, pool: FacetPool, tokens: seq<FacetRef>)
    requires DistinctTokens(tokens) && PoolValid(pool.State())
    requires forall t | t in tokens :: Resolves(pool.State(), arena.allocations, t)
    modifies pool
    ensures PoolValid(pool.State())
    ensures pool.State() == old(pool.State()).(slots := RaisedSlots(old(pool.slots), tokens))
  {
    ghost var before := pool.State();
    assert RaisedSlots(before.slots, []) == before.slots;
    for k := 0 to |tokens|
      invariant PoolValid(pool.State())
      invariant pool.State() == before.(slots := RaisedSlots(before.slots, tokens[..k]))
    {
      assert Resolves(before, arena.allocations, tokens[k]);
      RaisedSlotsNext(before.slots, tokens, k);
      var ok := pool.BeginGpuUse(arena, tokens[k]);
      assert ok;
    }
    assert tokens[..|tokens|] == tokens;
  }

  method EndEach(pool: FacetPool, tokens: seq<FacetRef>)
    requires DistinctTokens(tokens) && PoolValid(pool.State())
    requires forall t | t in tokens :: Outstanding(pool.slots, t)
    modifies pool
    ensures PoolValid(pool.State())
    ensures pool.State() == EndedAll(old(pool.State()), tokens) && pool.slots == LoweredSlots(old(pool.slots), tokens)
  {
    ghost var before := pool.State();
    var k := |tokens|;
    while k > 0
      invariant 0 <= k <= |tokens|
      invariant PoolValid(pool.State()) && pool.State() == EndedAll(before, tokens[k..])
    {
      k := k - 1;
      assert tokens[k..][1..] == tokens[k + 1..];
      assert Outstanding(before.slots, tokens[k]);
      EndedAllMeaning(before, tokens[k + 1..]);
      LoweredSlotsNext(before.slots, tokens, k);
      var ok := pool.EndGpuUse(tokens[k]);
      assert ok;
    }
    assert tokens[0..] == tokens;
    EndedAllMeaning(before, tokens);
  }

  method ReleaseEach(arena: Arena, refs: seq<PointerRef>)
    requires DistinctRefs(refs)
    requires forall r | r in refs :: Live(arena.allocations, r) && arena.allocations[r.allocation].inFlight > 0
    modifies arena
    ensures arena.State() == old(arena.State()).(allocations := Lowered(old(arena.allocations), refs))
  {
    ghost var before := arena.State();
    var k := |refs|;
    assert Lowered(before.allocations, refs[k..]) == before.allocations;
    while k > 0
      invariant 0 <= k <= |refs|
      invariant arena.State() == before.(allocations := Lowered(before.allocations, refs[k..]))
    {
      k := k - 1;
      assert refs[k] in refs;
      LoweredNext(before.allocations, refs, k);
      var ok := arena.Release(refs[k]);
      assert ok;
    }
    assert refs[0..] == refs;
  }

  // ------------------------------------------------------------ the hold

  /** No in-flight count is about to wrap. */
  ghost predicate CountsBelow(memory: Allocations, slots: seq<FacetSlot>) {
    && (forall id | id in memory :: memory[id].inFlight < U32_MAX)
    && (forall i | 0 <= i < |slots| :: slots[i].inFlight < U32_MAX)
  }

  /** Releasing undoes acquiring. */
  lemma LoweredRaised(memory: Allocations, refs: seq<PointerRef>)
    requires forall id | id in memory :: memory[id].inFlight < U32_MAX
    ensures Lowered(Raised(memory, refs), refs) == memory
  {}

  function Tokens(uses: seq<LifetimeUse>): (r: seq<FacetRef>)
    ensures |r| == |uses| && forall k | 0 <= k < |r| :: r[k] == uses[k].ref
  {
    seq(|uses|, k requires 0 <= k < |uses| => uses[k].ref)
  }

  /** The planned uses together with the submission's own new facets. */
  function AllUses(planned: seq<LifetimeUse>, outputs: seq<FacetRef>, kinds: seq<FacetKind>): seq<LifetimeUse>
    requires |outputs| == |kinds|
  {
    planned + seq(|outputs|, k requires 0 <= k < |outputs| => LifetimeUse(outputs[k], kinds[k]))
  }

  /** All uses agree on kinds and resolve, and every allocation asked for is live. */
  ghost predicate Acquirable(memory: Allocations, pool: PoolState, refs: seq<PointerRef>, uses: seq<LifetimeUse>) {
    && (forall x, y | x in uses && y in uses && x.ref == y.ref :: x.kind == y.kind)
    && (forall u | u in uses :: Resolves(pool, memory, u.ref) && pool.slots[u.ref.index].kind == u.kind)
    && (forall r | r in refs :: Live(memory, r))
  }

  predicate UseMatches(memory: Allocations, pool: PoolState, u: LifetimeUse) {
    Resolves(pool, memory, u.ref) && pool.slots[u.ref.index].kind == u.kind
  }

  /** The allocations named outright and those backing the facets. */
  ghost predicate HoldsExactly(
    pool: PoolState, refs: seq<PointerRef>, uses: seq<LifetimeUse>, allocations: seq<PointerRef>, tokens: seq<FacetRef>)
  {
    && (forall t :: t in tokens <==> exists u | u in uses :: u.ref == t)
    && (forall t | t in tokens :: t.index < |pool.slots|)
    && (forall r :: r in allocations <==> r in refs || exists t | t in tokens && t.index < |pool.slots| :: pool.slots[t.index].Backing() == r)
  }

  class SubmissionLifetimeHold {
    const arena: Arena
    const pool: FacetPool
    const allocationInventory: seq<PointerRef>
    const facetInventory: seq<LifetimeUse>
    const representationKinds: seq<FacetKind>
    var acquiredAllocations: seq<PointerRef>
    var acquiredFacets: seq<FacetRef>
    var held: bool

    /** A prepared hold. */
    constructor (arena: Arena, pool: FacetPool, allocations: seq<PointerRef>, facets: seq<LifetimeUse>, kinds: seq<FacetKind>)
      ensures this.arena == arena && this.pool == pool && allocationInventory == allocations
      ensures facetInventory == facets && representationKinds == kinds
      ensures Valid() && !held
    {
      this.arena, this.pool := arena, pool;
      allocationInventory, facetInventory, representationKinds := allocations, facets, kinds;
      acquiredAllocations, acquiredFacets, held := [], [], false;
    }

    ghost predicate Valid()
      reads this
    {
      && DistinctRefs(acquiredAllocations) && DistinctTokens(acquiredFacets)
      && (!held ==> acquiredAllocations == [] && acquiredFacets == [])
    }

    /** Everything acquired is still in flight. */
    ghost predicate Holding()
      reads this, arena, pool
    {
      && (forall r | r in acquiredAllocations :: Live(arena.allocations, r) && arena.allocations[r.allocation].inFlight > 0)
      && (forall t | t in acquiredFacets :: Outstanding(pool.slots, t))
    }

    /** Acquires everything or changes nothing. */
    method Acquire(outputs: seq<FacetRef>) returns (ok: bool)
      requires Valid() && PoolValid(pool.State()) && CountsBelow(arena.allocations, pool.slots)
      modifies this, arena, pool
      ensures Valid() && PoolValid(pool.State())
      ensures ok <==> !old(held) && |outputs| == |representationKinds| &&
                      Acquirable(old(arena.allocations), old(pool.State()), allocationInventory,
                                 AllUses(facetInventory, outputs, representationKinds))
      ensures !ok ==>
                && arena.State() == old(arena.State()) && pool.State() == old(pool.State()) && held == old(held)
                && acquiredAllocations == old(acquiredAllocations) && acquiredFacets == old(acquiredFacets)
      ensures ok ==>
                && held && Holding()
                && arena.State() == old(arena.State()).(allocations := Raised(old(arena.allocations), acquiredAllocations))
                && pool.State() == old(pool.State()).(slots := RaisedSlots(old(pool.slots), acquiredFacets))
                && HoldsExactly(old(pool.State()), allocationInventory,
                                AllUses(facetInventory, outputs, representationKinds), acquiredAllocations, acquiredFacets)
    {
      if held || |outputs| != |representationKinds| {
        return false;
      }
      var uses := AllUses(facetInventory, outputs, representationKinds);
      var consistent, sorted := SortUniqueFacets(uses);
      if !consistent {
        return false;
      }
      var found, allocations := Backings(arena, pool, sorted, allocationInventory);
      if !found {
        return false;
      }
      var wanted := SortUniqueAllocations(allocations);
      var tokens := Tokens(sorted);
      InventoryExact(arena.allocations, pool.State(), allocationInventory, uses, sorted, allocations, wanted, tokens);
      ok := AcquireBoth(arena, pool, wanted, tokens);
      if ok {
        acquiredAllocations, acquiredFacets, held := wanted, tokens, true;
      }
    }

    /** Gives everything back; no release can fail. */
    method Release()
      requires Valid() && PoolValid(pool.State()) && Holding()
      modifies this, arena, pool
      ensures Valid() && PoolValid(pool.State()) && !held
      ensures arena.State() == old(arena.State()).(allocations := Lowered(old(arena.allocations), old(acquiredAllocations)))
      ensures pool.State() == EndedAll(old(pool.State()), old(acquiredFacets))
      ensures pool.slots == LoweredSlots(old(pool.slots), old(acquiredFacets))
    {
      EndEach(pool, acquiredFacets);
      ReleaseEach(arena, acquiredAllocations);
      acquiredAllocations, acquiredFacets, held := [], [], false;
    }
  }

  /** Raises all counts, or, if some allocation is not live, none. */
  method AcquireBoth(arena: Arena, pool: FacetPool, wanted: seq<PointerRef>, tokens: seq<FacetRef>) returns (ok: bool)
    requires DistinctRefs(wanted) && DistinctTokens(tokens)
    requires PoolValid(pool.State()) && CountsBelow(arena.allocations, pool.slots)
    requires forall t | t in tokens :: Resolves(pool.State(), arena.allocations, t)
    modifies arena, pool
    ensures PoolValid(pool.State())
    ensures ok <==> forall r | r in wanted :: Live(old(arena.allocations), r)
    ensures !ok ==> arena.State() == old(arena.State()) && pool.State() == old(pool.State())
    ensures ok ==>
              && arena.State() == old(arena.State()).(allocations := Raised(old(arena.allocations), wanted))
              && pool.State() == old(pool.State()).(slots := RaisedSlots(old(pool.slots), tokens))
              && (forall r | r in wanted :: Live(arena.allocations, r) && arena.allocations[r.allocation].inFlight > 0)
              && (forall t | t in tokens :: Outstanding(pool.slots, t))
  {
    ghost var memory, before := arena.allocations, pool.State();
    var acquired := AcquireEach(arena, wanted);
    RaisedHeld(memory, acquired);
    if acquired != wanted {
      LoweredRaised(memory, acquired);
      ReleaseEach(arena, acquired);
      return false;
    }
    forall t | t in tokens ensures Resolves(before, arena.allocations, t) {
      StillResolves(before, memory, wanted, t);
    }
    BeginEach(arena, pool, tokens);
    RaisedOutstanding(before, memory, tokens);
    ok := true;
  }

  lemma StillResolves(pool: PoolState, memory: Allocations, refs: seq<PointerRef>, t: FacetRef)
    requires Resolves(pool, memory, t)
    ensures Resolves(pool, Raised(memory, refs), t)
  {}

  lemma InventoryExact(
    memory: Allocations, pool: PoolState, inventory: seq<PointerRef>, uses: seq<LifetimeUse>, sorted: seq<LifetimeUse>,
    allocations: seq<PointerRef>, wanted: seq<PointerRef>, tokens: seq<FacetRef>)
    requires UsesAscend(sorted) && (forall u :: u in sorted <==> u in uses) && tokens == Tokens(sorted)
    requires forall x, y | x in uses && y in uses && x.ref == y.ref :: x.kind == y.kind
    requires forall u | u in sorted :: UseMatches(memory, pool, u)
    requires forall r :: r in allocations <==>
               r in inventory || exists u | u in sorted :: u.ref.index < |pool.slots| && pool.slots[u.ref.index].Backing() == r
    requires AllocationsAscend(wanted) && forall r :: r in wanted <==> r in allocations
    ensures DistinctRefs(wanted) && DistinctTokens(tokens)
    ensures HoldsExactly(pool, inventory, uses, wanted, tokens)
    ensures forall t | t in tokens :: Resolves(pool, memory, t)
    ensures (forall r | r in wanted :: Live(memory, r)) <==> Acquirable(memory, pool, inventory, uses)
  {
    TokensOf(sorted);
    forall t | t in tokens ensures Resolves(pool, memory, t) {
      var u :| u in sorted && u.ref == t;
      assert UseMatches(memory, pool, u);
    }
    forall u | u in sorted ensures u.ref in tokens && Live(memory, pool.slots[u.ref.index].Backing()) {
      assert UseMatches(memory, pool, u);
    }
  }

  lemma TokensOf(uses: seq<LifetimeUse>)
    ensures forall t :: t in Tokens(uses) <==> exists u | u in uses :: u.ref == t
  {
    forall t ensures t in Tokens(uses) <==> exists u | u in uses :: u.ref == t {
      if t in Tokens(uses) {
        var k :| 0 <= k < |uses| && Tokens(uses)[k] == t;
        assert uses[k] in uses;
      }
      if u :| u in uses && u.ref == t {
        var k :| 0 <= k < |uses| && uses[k] == u;
        assert Tokens(uses)[k] == t;
      }
    }
  }

  lemma RaisedHeld(memory: Allocations, refs: seq<PointerRef>)
    requires forall id | id in memory :: memory[id].inFlight < U32_MAX
    requires forall r | r in refs :: Live(memory, r)
    ensures forall r | r in refs :: Live(Raised(memory, refs), r) && Raised(memory, refs)[r.allocation].inFlight > 0
  {}

  lemma RaisedOutstanding(pool: PoolState, memory: Allocations, tokens: seq<FacetRef>)
    requires forall i | 0 <= i < |pool.slots| :: pool.slots[i].inFlight < U32_MAX
    requires forall t | t in tokens :: Resolves(pool, memory, t)
    ensures forall t | t in tokens :: Outstanding(RaisedSlots(pool.slots, tokens), t)
  {}

  /** Looks every use up and adds the allocations behind them. */
  method Backings(arena: Arena, pool: FacetPool, uses: seq<LifetimeUse>, inventory: seq<PointerRef>)
    returns (ok: bool, allocations: seq<PointerRef>)
    ensures ok <==> forall u | u in uses :: UseMatches(arena.allocations, pool.State(), u)
    ensures ok ==> forall r :: r in allocations <==>
              r in inventory || exists u | u in uses :: u.ref.index < |pool.slots| && pool.slots[u.ref.index].Backing() == r
  {
    allocations := inventory;
    for k := 0 to |uses|
      invariant forall u | u in uses[..k] :: UseMatches(arena.allocations, pool.State(), u)
      invariant forall r :: r in allocations <==>
                  r in inventory || exists u | u in uses[..k] :: u.ref.index < |pool.slots| && pool.slots[u.ref.index].Backing() == r
    {
      assert uses[..k + 1] == uses[..k] + [uses[k]];
      if !UseMatches(arena.allocations, pool.State(), uses[k]) {
        assert uses[k] in uses;
        return false, allocations;
      }
      allocations := allocations + [pool.slots[uses[k].ref.index].Backing()];
    }
    assert uses[..|uses|] == uses;
    ok := true;
  }
}
