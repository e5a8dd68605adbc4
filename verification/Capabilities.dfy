/** Capability tokens over whole runs: an arena and the facet pool that reads it, under any interleaving of their
    operations (src/core/arena.cpp, src/core/facet.cpp). */
module Capabilities {
  import opened Ir
  import opened Arenas
  import opened ArenaStore
  import opened Wrappers
  import opened CanonicalViews
  import opened Facets

  /** One call.  A call that fails changes nothing. */
  datatype Action =
    | Allocate(byteCount: U64)
    | Import(imported: RepresentationRef, size: U64, state: ObjectState, content: seq<Byte>)
    | RetireAllocation(retired: PointerRef)
    | AcquireAllocation(acquired: PointerRef)
    | ReleaseAllocation(released: PointerRef)
    | Transform(transformed: PointerRef)
    | ReleaseRepresentation(dropped: PointerRef)
    | ConsumeRepresentation(superseded: RepresentationRef, proof: ConsumeProof)
    | Consume(consumed: RepresentationRef, consumeProof: ConsumeProof)
    | AcquireFacet(view: CanonicalView, kind: FacetKind)
    | RetireFacet(token: FacetRef)
    | RetireStale
    | BeginUse(begun: FacetRef)
    | EndUse(ended: FacetRef)

  /** The two tables, and every token ever issued, in order. */
  datatype Device = Device(arena: ArenaState, pool: PoolState, issued: seq<FacetRef>)

  function Or<T>(r: Option<T>, other: T): T {
    if r.Some? then r.value else other
  }

  function ApplyToArena(s: ArenaState, a: Action): ArenaState {
    match a
    case Allocate(size) => Allocated(s, size)
    case Import(ref, size, state, bytes) => Or(Imported(s, ref, size, state, bytes), s)
    case RetireAllocation(ref) => Or(ObjectRetired(s, ref), s)
    case AcquireAllocation(ref) => Or(Acquired(s, ref), s)
    case ReleaseAllocation(ref) => Or(Released(s, ref), s)
    case Transform(ref) => Or(Transformed(s, ref), s)
    case ReleaseRepresentation(ref) => Or(RepresentationReleased(s, ref), s)
    case ConsumeRepresentation(ref, proof) => Or(RepresentationConsumed(s, ref, proof), s)
    case Consume(ref, proof) => Or(Consumed(s, ref, proof), s)
    case _ => s
  }

  function Apply(d: Device, a: Action): Device
    requires PoolValid(d.pool)
  {
    match a
    case AcquireFacet(view, kind) =>
      var r := Issued(d.pool, d.arena.allocations, view, kind);
      if r.None? then d else Device(d.arena, r.value.0, d.issued + [r.value.1])
    case RetireFacet(ref) => d.(pool := Or(RetiredToken(d.pool, ref), d.pool))
    case RetireStale => d.(pool := Swept(d.pool, d.arena.allocations))
    case BeginUse(ref) => d.(pool := Or(Begun(d.pool, d.arena.allocations, ref), d.pool))
    case EndUse(ref) => d.(pool := Or(Ended(d.pool, ref), d.pool))
    case _ => d.(arena := ApplyToArena(d.arena, a))
  }

  /** No 32-bit counter of a slot or an epoch is about to wrap. */
  ghost predicate Headroom(d: Device) {
    && (forall i | 0 <= i < |d.pool.slots| :: d.pool.slots[i].generation < U32_MAX && d.pool.slots[i].inFlight < U32_MAX)
    && (forall id | id in d.arena.allocations :: d.arena.allocations[id].epoch < U32_MAX)
  }

  // ------------------------------------------------------------ the invariant

  /** A slot's backing stays on record, and its epoch never goes back. */
  ghost predicate BackingOnRecord(memory: Allocations, slots: seq<FacetSlot>) {
    forall i | 0 <= i < |slots| ::
      slots[i].view.allocation in memory && slots[i].epoch <= memory[slots[i].view.allocation].epoch
  }

  /** Issued tokens are of past or present generations; the present one has been issued exactly if the slot is active. */
  ghost predicate TokensOnRecord(issued: seq<FacetRef>, slots: seq<FacetSlot>) {
    && (forall t | t in issued :: t.index < |slots| && t.generation <= slots[t.index].generation)
    && (forall i | 0 <= i < |slots| :: slots[i].active <==> FacetRef(i, slots[i].generation) in issued)
  }

  ghost predicate DeviceValid(d: Device) {
    && PoolValid(d.pool)
    && BackingOnRecord(d.arena.allocations, d.pool.slots)
    && TokensOnRecord(d.issued, d.pool.slots)
    && (forall i, j | 0 <= i < j < |d.issued| :: d.issued[i] != d.issued[j])
  }

  /** Nothing allocated and nothing issued, under some budget of representations (none if zero). */
  function NewDevice(budget: U32): Device {
    Device(ArenaState(map[], 1, 0, 0, budget), PoolState([], []), [])
  }

  predicate IsNew(d: Device) {
    d == NewDevice(d.arena.budget)
  }

  /** An allocation never leaves the table, is never revived, and its epoch never falls. */
  ghost predicate MemoryProgresses(before: Allocations, after: Allocations) {
    forall id | id in before ::
      && id in after
      && before[id].epoch <= after[id].epoch
      && (after[id].state.Active? ==> before[id].state.Active? && after[id].generation == before[id].generation)
  }

  lemma ArenaProgresses(s: ArenaState, a: Action)
    requires forall id | id in s.allocations :: s.allocations[id].epoch < U32_MAX
    ensures MemoryProgresses(s.allocations, ApplyToArena(s, a).allocations)
  {}

  /** What one call may do to a slot, apart from issuing it anew: keep its view, kind and epoch, and its
      generation while it stays active. */
  ghost predicate SlotProgresses(before: FacetSlot, after: FacetSlot) {
    && after.view == before.view && after.kind == before.kind && after.epoch == before.epoch
    && (after.active ==> before.active)
    && (if after.active || !before.active then after.generation == before.generation
        else after.generation == Bump32(before.generation))
  }

  ghost predicate SlotsProgress(before: seq<FacetSlot>, after: seq<FacetSlot>) {
    |after| == |before| && forall i | 0 <= i < |before| :: SlotProgresses(before[i], after[i])
  }

  lemma PoolProgresses(d: Device, a: Action)
    requires PoolValid(d.pool) && !a.AcquireFacet?
    ensures var after := Apply(d, a);
            PoolValid(after.pool) && SlotsProgress(d.pool.slots, after.pool.slots) && after.issued == d.issued
  {
    match a
    case RetireFacet(ref) =>
      if RetiredToken(d.pool, ref).Some? {
        RetireSlotValid(d.pool, ref.index);
      }
    case RetireStale =>
      SweptValid(d.pool, d.arena.allocations, |d.pool.slots|);
      SweptMeaning(d.pool, d.arena.allocations, |d.pool.slots|);
    case BeginUse(ref) => BegunValid(d.pool, d.arena.allocations, ref);
    case EndUse(ref) => EndedValid(d.pool, ref);
    case _ =>
  }

  lemma ProgressKeepsRecords(memory: Allocations, after: Allocations, slots: seq<FacetSlot>, next: seq<FacetSlot>, issued: seq<FacetRef>)
    requires MemoryProgresses(memory, after) && SlotsProgress(slots, next)
    requires BackingOnRecord(memory, slots) && TokensOnRecord(issued, slots)
    requires forall i | 0 <= i < |slots| :: slots[i].generation < U32_MAX
    ensures BackingOnRecord(after, next) && TokensOnRecord(issued, next)
  {
    forall i | 0 <= i < |next| ensures next[i].active <==> FacetRef(i, next[i].generation) in issued {
      assert SlotProgresses(slots[i], next[i]);
    }
    forall t | t in issued ensures t.index < |next| && t.generation <= next[t.index].generation {
      assert SlotProgresses(slots[t.index], next[t.index]);
    }
  }

  lemma AcquireKeepsValid(d: Device, view: CanonicalView, kind: FacetKind)
    requires DeviceValid(d)
    ensures DeviceValid(Apply(d, AcquireFacet(view, kind)))
  {
    IssuedValid(d.pool, d.arena.allocations, view, kind);
    var r := Issued(d.pool, d.arena.allocations, view, kind);
    if r.Some? {
      var token, after := r.value.1, r.value.0;
      if d.pool.free != [] {
        assert token.index in d.pool.free;
      }
      assert token !in d.issued;
      forall i | 0 <= i < |after.slots| ensures after.slots[i].active <==> FacetRef(i, after.slots[i].generation) in d.issued + [token] {
        if i != token.index {
          assert after.slots[i] == d.pool.slots[i];
        }
      }
    }
  }

  /** Every call keeps the invariant. */
  lemma ApplyKeepsValid(d: Device, a: Action)
    requires DeviceValid(d) && Headroom(d)
    ensures DeviceValid(Apply(d, a))
  {
    if a.AcquireFacet? {
      AcquireKeepsValid(d, a.view, a.kind);
    } else {
      var after := Apply(d, a);
      PoolProgresses(d, a);
      ArenaProgresses(d.arena, a);
      ProgressKeepsRecords(d.arena.allocations, after.arena.allocations, d.pool.slots, after.pool.slots, d.issued);
    }
  }

  // ------------------------------------------------------------ one call

  /** A token that has been issued and does not resolve does not resolve after any call either. */
  lemma DeadStaysDead(d: Device, a: Action, t: FacetRef)
    requires DeviceValid(d) && Headroom(d) && t in d.issued && !Resolves(d.pool, d.arena.allocations, t)
    ensures var after := Apply(d, a);
            t in after.issued && !Resolves(after.pool, after.arena.allocations, t)
  {
    ApplyKeepsValid(d, a);
    var after := Apply(d, a);
    if a.AcquireFacet? {
      var r := Issued(d.pool, d.arena.allocations, a.view, a.kind);
      if r.Some? && r.value.1.index == t.index && d.pool.free != [] {
        assert t.index in d.pool.free;
      }
    } else {
      PoolProgresses(d, a);
      ArenaProgresses(d.arena, a);
      assert SlotProgresses(d.pool.slots[t.index], after.pool.slots[t.index]);
    }
  }

  /** While uses of a slot are outstanding no call changes what it stands for, retirement included. */
  lemma OutstandingUsePinsSlot(d: Device, a: Action, i: nat)
    requires DeviceValid(d) && Headroom(d) && i < |d.pool.slots| && d.pool.slots[i].inFlight > 0
    ensures var before, after := d.pool.slots[i], Apply(d, a).pool.slots;
            && i < |after| && SlotProgresses(before, after[i])
            && after[i].inFlightGeneration == before.inFlightGeneration
  {
    if a.AcquireFacet? {
      var r := Issued(d.pool, d.arena.allocations, a.view, a.kind);
      if r.Some? && d.pool.free != [] {
        assert r.value.1.index in d.pool.free;
      }
    } else {
      PoolProgresses(d, a);
      if a.RetireStale? {
        SweptMeaning(d.pool, d.arena.allocations, |d.pool.slots|);
      }
    }
  }

  // ------------------------------------------------------------ whole runs

  /** `states` are the successive states of a run, none of them about to wrap a counter. */
  ghost predicate IsRun(states: seq<Device>, actions: seq<Action>) {
    && |states| == |actions| + 1
    && (forall k | 0 <= k < |states| :: Headroom(states[k]))
    && (forall k: nat | k < |actions| :: StepAt(states, actions, k))
  }

  /** `Apply` is a function of valid pools only, so a step says nothing about what follows any other pool.  That no
      run from a new device ever meets one is proved, not assumed. */
  ghost predicate StepAt(states: seq<Device>, actions: seq<Action>, k: nat) {
    k + 1 < |states| && k < |actions| && (PoolValid(states[k].pool) ==> states[k + 1] == Apply(states[k], actions[k]))
  }

  /** In every state of every run the issued tokens are pairwise distinct, the free list is exact, and
      a token resolves only if it was issued. */
  lemma {:induction false} RunsAreValid(states: seq<Device>, actions: seq<Action>, k: nat)
    requires IsRun(states, actions) && IsNew(states[0]) && k < |states|
    ensures DeviceValid(states[k])
    ensures forall t | Resolves(states[k].pool, states[k].arena.allocations, t) :: t in states[k].issued
  {
    if k > 0 {
      RunsAreValid(states, actions, k - 1);
      assert Headroom(states[k - 1]) && StepAt(states, actions, k - 1);
      ApplyKeepsValid(states[k - 1], actions[k - 1]);
    }
  }

  ghost predicate Dead(d: Device, t: FacetRef) {
    t in d.issued && !Resolves(d.pool, d.arena.allocations, t)
  }

  /** In no run does an issued token that has stopped resolving ever resolve again. */
  lemma {:induction false} TokensNeverRevive(states: seq<Device>, actions: seq<Action>, j: nat, k: nat, t: FacetRef)
    requires IsRun(states, actions) && IsNew(states[0]) && j <= k < |states|
    requires Dead(states[j], t)
    ensures Dead(states[k], t)
  {
    if j < k {
      TokensNeverRevive(states, actions, j, k - 1, t);
      NextStaysDead(states, actions, k - 1, t);
    }
  }

  lemma NextStaysDead(states: seq<Device>, actions: seq<Action>, k: nat, t: FacetRef)
    requires IsRun(states, actions) && IsNew(states[0]) && k < |actions| && Dead(states[k], t)
    ensures Dead(states[k + 1], t)
  {
    RunsAreValid(states, actions, k);
    assert Headroom(states[k]) && StepAt(states, actions, k);
    DeadStaysDead(states[k], actions[k], t);
  }

  ghost predicate InUse(d: Device, i: nat) {
    i < |d.pool.slots| && d.pool.slots[i].inFlight > 0
  }

  ghost predicate SameFacet(a: FacetSlot, b: FacetSlot) {
    a.view == b.view && a.kind == b.kind && a.epoch == b.epoch && a.inFlightGeneration == b.inFlightGeneration
  }

  /** In no run does a slot's view, kind or epoch change between two states if uses are outstanding throughout. */
  lemma {:induction false} UsesSeeOneFacet(states: seq<Device>, actions: seq<Action>, j: nat, k: nat, i: nat)
    requires IsRun(states, actions) && IsNew(states[0]) && j <= k < |states|
    requires InUse(states[j], i) && InUse(states[k], i) && forall m | j <= m <= k :: InUse(states[m], i)
    ensures SameFacet(states[j].pool.slots[i], states[k].pool.slots[i])
  {
    if j < k {
      assert InUse(states[k - 1], i);
      UsesSeeOneFacet(states, actions, j, k - 1, i);
      NextSeesOneFacet(states, actions, k - 1, i);
    }
  }

  lemma NextSeesOneFacet(states: seq<Device>, actions: seq<Action>, k: nat, i: nat)
    requires IsRun(states, actions) && IsNew(states[0]) && k < |actions| && InUse(states[k], i)
    ensures i < |states[k + 1].pool.slots| && SameFacet(states[k].pool.slots[i], states[k + 1].pool.slots[i])
  {
    RunsAreValid(states, actions, k);
    assert Headroom(states[k]) && StepAt(states, actions, k);
    OutstandingUsePinsSlot(states[k], actions[k], i);
  }
}
