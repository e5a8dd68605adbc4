/** When exactly a token dies, what it stands for until then, and what the arena's counters tell
    (src/core/facet.cpp, src/core/arena.cpp). */
module TokenLifetimes {
  import opened Ir
  import opened Arenas
  import opened ArenaStore
  import opened Wrappers
  import opened CanonicalViews
  import opened Facets
  import opened Capabilities

  // ------------------------------------------------------------ the death of a token

  predicate AllFour(proof: ConsumeProof) {
    proof.envelopeComplete && proof.noExternalReferences && proof.noReplayRequired && proof.failureSemanticsAccepted
  }

  /** The call retires the token, or, on an idle allocation, moves the representation behind it on or takes it away. */
  predicate Invalidates(d: Device, a: Action, t: FacetRef)
    requires t.index < |d.pool.slots| && d.pool.slots[t.index].view.allocation in d.arena.allocations
  {
    var slot := d.pool.slots[t.index];
    var id := slot.view.allocation;
    var behind := d.arena.allocations[id];
    match a
    case RetireFacet(ref) => ref == t
    case Transform(ref) =>
      && ref.allocation == id && ref.generation == behind.generation && behind.inFlight == 0
      && (d.arena.budget == 0 || behind.live < d.arena.budget)
    case RetireAllocation(ref) => ref.allocation == id && ref.generation == behind.generation && behind.inFlight == 0
    case Consume(ref, proof) =>
      && ref.allocation == id && ref.generation == behind.generation && ref.epoch == behind.epoch
      && behind.inFlight == 0 && AllFour(proof)
    case _ => false
  }

  predicate OfPool(a: Action) {
    a.AcquireFacet? || a.RetireFacet? || a.RetireStale? || a.BeginUse? || a.EndUse?
  }

  /** One call kills a token that resolves exactly if it is one of those; otherwise the slot keeps what it stands for. */
  lemma DiesExactly(d: Device, a: Action, t: FacetRef)
    requires DeviceValid(d) && Headroom(d) && Resolves(d.pool, d.arena.allocations, t)
    ensures var after := Apply(d, a);
            && (Resolves(after.pool, after.arena.allocations, t) <==> !Invalidates(d, a, t))
            && (!Invalidates(d, a, t) ==> Stands(after, t, d.pool.slots[t.index]))
  {
    if OfPool(a) {
      DiesInPool(d, a, t);
    } else {
      DiesInArena(d, a, t);
    }
  }

  lemma DiesInArena(d: Device, a: Action, t: FacetRef)
    requires DeviceValid(d) && Headroom(d) && Resolves(d.pool, d.arena.allocations, t) && !OfPool(a)
    ensures var after := Apply(d, a);
            && (Resolves(after.pool, after.arena.allocations, t) <==> !Invalidates(d, a, t))
            && (!Invalidates(d, a, t) ==> Stands(after, t, d.pool.slots[t.index]))
  {
    var id := d.pool.slots[t.index].view.allocation;
    var before, after := d.arena.allocations[id], ApplyToArena(d.arena, a).allocations[id];
    assert before.epoch < U32_MAX;
    assert Invalidates(d, a, t) <==> after.epoch != before.epoch || !after.state.Active?;
    assert after.state.Active? ==> after.generation == before.generation;
  }

  lemma DiesInPool(d: Device, a: Action, t: FacetRef)
    requires DeviceValid(d) && Headroom(d) && Resolves(d.pool, d.arena.allocations, t) && OfPool(a)
    ensures var after := Apply(d, a);
            && (Resolves(after.pool, after.arena.allocations, t) <==> !Invalidates(d, a, t))
            && (!Invalidates(d, a, t) ==> Stands(after, t, d.pool.slots[t.index]))
  {
    if a.AcquireFacet? {
      IssueSpares(d.pool, d.arena.allocations, a.view, a.kind, t);
    } else if a.RetireStale? {
      SweptMeaning(d.pool, d.arena.allocations, |d.pool.slots|);
    }
  }

  /** Issuing a token leaves the slots of those that resolve alone. */
  lemma IssueSpares(s: PoolState, memory: Allocations, view: CanonicalView, kind: FacetKind, t: FacetRef)
    requires PoolValid(s) && Resolves(s, memory, t)
    ensures var r := Issued(s, memory, view, kind);
            r.Some? ==> t.index < |r.value.0.slots| && r.value.0.slots[t.index] == s.slots[t.index]
  {
    if s.free != [] {
      assert s.free[|s.free| - 1] in s.free;
    }
  }

  /** The token's slot stands for the same view and kind at the same epoch, which is the allocation's own. */
  ghost predicate Stands(d: Device, t: FacetRef, issued: FacetSlot) {
    && t.index < |d.pool.slots|
    && var slot := d.pool.slots[t.index];
       && slot.view == issued.view && slot.kind == issued.kind && slot.epoch == issued.epoch
       && slot.active && slot.generation == t.generation
       && slot.view.allocation in d.arena.allocations
       && var behind := d.arena.allocations[slot.view.allocation];
          behind.state.Active? && behind.generation == slot.view.allocationGeneration && behind.epoch == slot.epoch
  }

  ghost predicate Alive(d: Device, t: FacetRef) {
    Resolves(d.pool, d.arena.allocations, t)
  }

  /** In every run, a token that resolves in two states resolves in every state between, and stands for the same view
      and kind of the same representation in all of them. */
  lemma {:induction false} TokensStandForOneRepresentation(states: seq<Device>, actions: seq<Action>, j: nat, k: nat, t: FacetRef)
    requires IsRun(states, actions) && IsNew(states[0]) && j <= k < |states|
    requires Alive(states[j], t) && Alive(states[k], t)
    ensures forall m | j <= m <= k :: Alive(states[m], t)
    ensures Stands(states[k], t, states[j].pool.slots[t.index])
  {
    RunsAreValid(states, actions, j);
    if j < k {
      if !Alive(states[k - 1], t) {
        IssuedSince(states, actions, j, k - 1, t);
        assert Dead(states[k - 1], t);
        TokensNeverRevive(states, actions, k - 1, k, t);
      }
      TokensStandForOneRepresentation(states, actions, j, k - 1, t);
      RunsAreValid(states, actions, k - 1);
      assert Headroom(states[k - 1]) && StepAt(states, actions, k - 1);
      DiesExactly(states[k - 1], actions[k - 1], t);
    }
  }

  /** What has been issued stays issued. */
  lemma {:induction false} IssuedSince(states: seq<Device>, actions: seq<Action>, j: nat, k: nat, t: FacetRef)
    requires IsRun(states, actions) && IsNew(states[0]) && j <= k < |states| && Alive(states[j], t)
    ensures t in states[k].issued
  {
    RunsAreValid(states, actions, j);
    if j < k {
      IssuedSince(states, actions, j, k - 1, t);
      RunsAreValid(states, actions, k - 1);
      assert Headroom(states[k - 1]) && StepAt(states, actions, k - 1);
      PoolStepIssues(states[k - 1], actions[k - 1], t);
    }
  }

  lemma PoolStepIssues(d: Device, a: Action, t: FacetRef)
    requires PoolValid(d.pool) && t in d.issued
    ensures t in Apply(d, a).issued
  {
    if !a.AcquireFacet? {
      PoolProgresses(d, a);
    }
  }

  // ------------------------------------------------------------ representations

  /** An active allocation has at least one representation, and no more than the budget, if there is one. */
  ghost predicate WithinBudget(s: ArenaState) {
    forall id | id in s.allocations && s.allocations[id].state.Active? ::
      s.allocations[id].live >= 1 && (s.budget != 0 ==> s.allocations[id].live <= s.budget)
  }

  /** No number of representations is about to wrap. */
  ghost predicate RepresentationHeadroom(s: ArenaState) {
    forall id | id in s.allocations :: s.allocations[id].live < U32_MAX
  }

  lemma StepWithinBudget(s: ArenaState, a: Action)
    requires WithinBudget(s) && RepresentationHeadroom(s)
    ensures WithinBudget(ApplyToArena(s, a)) && ApplyToArena(s, a).budget == s.budget
  {}

  /** In every state of every run the representations of an active allocation number at least one and at most the
      budget. */
  lemma {:induction false} RunsStayInBudget(states: seq<Device>, actions: seq<Action>, k: nat)
    requires IsRun(states, actions) && IsNew(states[0]) && k < |states|
    requires forall m | 0 <= m < |states| :: RepresentationHeadroom(states[m].arena)
    ensures WithinBudget(states[k].arena) && states[k].arena.budget == states[0].arena.budget
  {
    if k > 0 {
      RunsStayInBudget(states, actions, k - 1);
      RunsAreValid(states, actions, k - 1);
      assert StepAt(states, actions, k - 1) && RepresentationHeadroom(states[k - 1].arena);
      StepWithinBudget(states[k - 1].arena, actions[k - 1]);
    }
  }

  /** Whatever becomes live or dead, the topology epoch moves on. */
  lemma TopologyTells(s: ArenaState, a: Action, r: PointerRef)
    ensures var after := ApplyToArena(s, a);
            && after.topologyEpoch in {s.topologyEpoch, Bump64(s.topologyEpoch)}
            && (Live(after.allocations, r) != Live(s.allocations, r) ==> after.topologyEpoch == Bump64(s.topologyEpoch))
  {}

  /** Whatever happens to the representations of an allocation, the clock moves on, unless the allocation is retired
      with them. */
  lemma ClockTells(s: ArenaState, a: Action, id: U64)
    requires id in s.allocations
    ensures var before, after := s.allocations[id], ApplyToArena(s, a).allocations[id];
            && ApplyToArena(s, a).clock in {s.clock, Bump64(s.clock)}
            && ((before.epoch, before.live, before.bytes) != (after.epoch, after.live, after.bytes) ==>
                  ApplyToArena(s, a).clock == Bump64(s.clock))
  {}

  // ------------------------------------------------------------ identities

  /** Identities are handed out in ascending order: every one in use is below the next, and none is zero. */
  ghost predicate IdentitiesBelow(s: ArenaState) {
    s.nextId > 0 && forall id | id in s.allocations :: 0 < id < s.nextId
  }

  /** No identity is about to wrap. */
  predicate IdentityHeadroom(s: ArenaState, a: Action) {
    s.nextId < U64_MAX && (a.Import? ==> a.imported.allocation < U64_MAX)
  }

  lemma StepKeepsIdentities(s: ArenaState, a: Action)
    requires IdentitiesBelow(s) && IdentityHeadroom(s, a)
    ensures IdentitiesBelow(ApplyToArena(s, a))
  {}

  /** So a new allocation never takes an identity that was ever in use, imported ones included. */
  lemma {:induction false} AllocationsAreNew(states: seq<Device>, actions: seq<Action>, k: nat)
    requires IsRun(states, actions) && IsNew(states[0]) && k < |states|
    requires forall m | 0 <= m < |actions| :: IdentityHeadroom(states[m].arena, actions[m])
    ensures IdentitiesBelow(states[k].arena) && states[k].arena.nextId !in states[k].arena.allocations
  {
    if k > 0 {
      AllocationsAreNew(states, actions, k - 1);
      RunsAreValid(states, actions, k - 1);
      assert StepAt(states, actions, k - 1) && IdentityHeadroom(states[k - 1].arena, actions[k - 1]);
      StepKeepsIdentities(states[k - 1].arena, actions[k - 1]);
    }
  }
}
