/** Publishing new representations for a submission (src/core/representation.cpp and
    src/backends/device_hal.cpp, `commit_representation_operations`). */
module RepresentationCommit {
  import opened Ir
  import opened Arenas
  import opened ArenaStore
  import opened Wrappers
  import opened CanonicalViews
  import opened Facets

  datatype Request = Request(
    order: nat, view: CanonicalView, kind: FacetKind, sourceEpoch: U32, targetEpoch: U32, consume: bool, proof: ConsumeProof)
  {
    function Backing(): PointerRef {
      PointerRef(view.allocation, view.allocationGeneration)
    }

    function Target(): RepresentationRef {
      RepresentationRef(view.allocation, view.allocationGeneration, targetEpoch)
    }

    function Superseded(): RepresentationRef {
      RepresentationRef(view.allocation, view.allocationGeneration, sourceEpoch)
    }
  }

  /** The backend's frozen operation, and what its physical step will answer: failure, or whether the new
      representation has a backing of its own. */
  datatype Operation = Operation(order: nat, unsupported: bool, distinctBacking: Option<bool>)

  datatype RepresentationEpoch = RepresentationEpoch(
    value: U64, representations: seq<RepresentationRef>, facets: seq<FacetRef>)
  {
    predicate Stale(memory: Allocations) {
      exists r | r in representations :: !LiveRepresentation(memory, r)
    }
  }

  class RepresentationEpochBuilder {
    var representations: seq<RepresentationRef>
    var facets: seq<FacetRef>
    var isSealed: bool

    constructor ()
      ensures representations == [] && facets == [] && !isSealed
    {
      representations, facets, isSealed := [], [], false;
    }

    /** Records a facet that resolves and the representation it names. */
    method AddFacet(arena: Arena, pool: FacetPool, ref: FacetRef) returns (ok: bool)
      modifies this
      ensures isSealed == old(isSealed)
      ensures ok <==> Resolves(pool.State(), arena.allocations, ref) && !old(isSealed)
                      && pool.slots[ref.index].view.allocationGeneration != 0
      ensures !ok ==> representations == old(representations) && facets == old(facets)
      ensures ok ==>
                && (var slot := pool.slots[ref.index];
                    var named := RepresentationRef(slot.view.allocation, slot.view.allocationGeneration, slot.epoch);
                    representations == old(representations) + if named in old(representations) then [] else [named])
                && facets == old(facets) + if ref in old(facets) then [] else [ref]
    {
      if !Resolves(pool.State(), arena.allocations, ref) || isSealed {
        return false;
      }
      var slot := pool.slots[ref.index];
      if slot.view.allocationGeneration == 0 {
        return false;
      }
      var named := RepresentationRef(slot.view.allocation, slot.view.allocationGeneration,
                                     arena.allocations[slot.view.allocation].epoch);
      if named !in representations {
        representations := representations + [named];
      }
      if ref !in facets {
        facets := facets + [ref];
      }
      ok := true;
    }

    method Seal(arena: Arena) returns (r: Option<RepresentationEpoch>)
      modifies this
      ensures isSealed && representations == old(representations) && facets == old(facets)
      ensures r == if old(isSealed) then None else Some(RepresentationEpoch(arena.clock, representations, facets))
    {
      if isSealed {
        return None;
      }
      isSealed := true;
      r := Some(RepresentationEpoch(arena.clock, representations, facets));
    }
  }

  // ------------------------------------------------------------ committing

  ghost predicate OneTransformPerAllocation(requests: seq<Request>) {
    forall i, j | 0 <= i < j < |requests| :: requests[i].view.allocation != requests[j].view.allocation
  }

  /** The facet stands for the request's view at the request's target epoch. */
  ghost predicate Fulfilled(request: Request, memory: Allocations, pool: PoolState, facet: FacetRef) {
    && Resolves(pool, memory, facet)
    && pool.slots[facet.index].view == request.view && pool.slots[facet.index].kind == request.kind
    && memory[request.view.allocation].epoch == request.targetEpoch == Bump32(request.sourceEpoch)
  }

  ghost predicate NoneStale(memory: Allocations, slots: seq<FacetSlot>) {
    forall i | 0 <= i < |slots| :: !Stale(slots[i], memory)
  }

  ghost predicate CommittedUpTo(
    requests: seq<Request>, k: nat, memory: Allocations, pool: PoolState, facets: seq<FacetRef>,
    representations: seq<RepresentationRef>)
  {
    && PoolValid(pool) && k <= |requests| && |facets| == k
    && (forall j | 0 <= j < k :: Fulfilled(requests[j], memory, pool, facets[j]))
    && (k > 0 ==> NoneStale(memory, pool.slots))
    && (forall r :: r in representations <==> exists j :: 0 <= j < k && requests[j].Target() == r)
  }

  lemma SweepKeepsFresh(pool: PoolState, memory: Allocations)
    requires PoolValid(pool)
    ensures var after := Swept(pool, memory);
            && PoolValid(after) && NoneStale(memory, after.slots)
            && (forall t | Resolves(pool, memory, t) :: Resolves(after, memory, t) && after.slots[t.index] == pool.slots[t.index])
  {
    SweptValid(pool, memory, |pool.slots|);
    SweptMeaning(pool, memory, |pool.slots|);
  }

  lemma IssueKeepsFresh(pool: PoolState, memory: Allocations, view: CanonicalView, kind: FacetKind)
    requires PoolValid(pool) && NoneStale(memory, pool.slots) && Issued(pool, memory, view, kind).Some?
    ensures var (after, token) := Issued(pool, memory, view, kind).value;
            && PoolValid(after) && NoneStale(memory, after.slots) && Resolves(after, memory, token)
            && after.slots[token.index].view == view && after.slots[token.index].kind == kind
            && (forall t | Resolves(pool, memory, t) :: Resolves(after, memory, t) && after.slots[t.index] == pool.slots[t.index])
  {
    IssuedValid(pool, memory, view, kind);
    if pool.free != [] {
      assert pool.free[|pool.free| - 1] in pool.free;
    }
  }

  /** Only the named allocation changes, and it stays live. */
  ghost predicate ElsewhereSame(before: Allocations, after: Allocations, id: U64) {
    before.Keys == after.Keys && forall x | x in before && x != id :: after[x] == before[x]
  }

  lemma ElsewhereKeepsFulfilled(
    request: Request, before: Allocations, after: Allocations, pool: PoolState, facet: FacetRef, id: U64)
    requires Fulfilled(request, before, pool, facet) && ElsewhereSame(before, after, id) && request.view.allocation != id
    ensures Fulfilled(request, after, pool, facet)
  {}

  lemma PoolKeepsFulfilled(request: Request, memory: Allocations, before: PoolState, after: PoolState, facet: FacetRef)
    requires Fulfilled(request, memory, before, facet)
    requires forall t | Resolves(before, memory, t) :: Resolves(after, memory, t) && after.slots[t.index] == before.slots[t.index]
    ensures Fulfilled(request, memory, after, facet)
  {}

  lemma SameEpochsKeepFresh(before: Allocations, after: Allocations, slots: seq<FacetSlot>)
    requires NoneStale(before, slots)
    requires forall id | id in before ::
               id in after && after[id].(bytes := [], live := 0) == before[id].(bytes := [], live := 0)
    ensures NoneStale(after, slots)
  {
    forall i | 0 <= i < |slots| ensures !Stale(slots[i], after) {
      if slots[i].active {
        var id := slots[i].view.allocation;
        assert !Stale(slots[i], before);
        assert after[id].(bytes := [], live := 0).epoch == before[id].(bytes := [], live := 0).epoch;
        assert after[id].(bytes := [], live := 0).state == before[id].(bytes := [], live := 0).state;
        assert after[id].(bytes := [], live := 0).generation == before[id].(bytes := [], live := 0).generation;
      }
    }
  }

  // ------------------------------------------------------------ one request

  /** The request's allocation is active under its generation and at its source epoch, without uses, and below the
      budget of representations if there is one. */
  ghost predicate Transformable(request: Request, s: ArenaState) {
    && request.view.allocation in s.allocations
    && var a := s.allocations[request.view.allocation];
       && a.state.Active? && a.generation == request.view.allocationGeneration && a.epoch == request.sourceEpoch
       && a.inFlight == 0 && (s.budget == 0 || a.live < s.budget)
  }

  /** No slot that is active or in use stands for the representation the request supersedes. */
  ghost predicate Unnamed(request: Request, pool: PoolState) {
    forall i | 0 <= i < |pool.slots| && (pool.slots[i].active || pool.slots[i].inFlight > 0) ::
      !(&& pool.slots[i].view.allocation == request.view.allocation
        && pool.slots[i].view.allocationGeneration == request.view.allocationGeneration
        && pool.slots[i].epoch == request.sourceEpoch)
  }

  lemma UnnamedExactly(request: Request, pool: PoolState)
    ensures Unnamed(request, pool) <==> !References(pool, request.Superseded())
  {
    if !Unnamed(request, pool) {
      var i :| 0 <= i < |pool.slots| && (pool.slots[i].active || pool.slots[i].inFlight > 0)
        && pool.slots[i].view.allocation == request.view.allocation
        && pool.slots[i].view.allocationGeneration == request.view.allocationGeneration
        && pool.slots[i].epoch == request.sourceEpoch;
      assert NamesRepresentation(pool.slots[i], request.Superseded());
    }
  }

  lemma TransformableExactly(request: Request, s: ArenaState)
    ensures Transformable(request, s) <==>
            LiveRepresentation(s.allocations, request.Superseded()) && Transformed(s, request.Backing()).Some?
  {}

  /** What publishing a request takes: a supported operation of the same order, an allocation that may be transformed, no
      token for a representation that is to be consumed, and a valid target. */
  ghost predicate Publishable(request: Request, operation: Operation, s: ArenaState, pool: PoolState) {
    && operation.order == request.order && !operation.unsupported
    && Transformable(request, s) && (request.consume ==> Unnamed(request, pool))
    && request.targetEpoch == Bump32(request.sourceEpoch)
    && TargetValid(s.allocations, request.view, request.kind)
  }

  /** What committing it takes besides: a physical step that succeeds, and for a consumption a backing of its own and a
      complete proof. */
  ghost predicate Committable(request: Request, operation: Operation, s: ArenaState, pool: PoolState) {
    && Publishable(request, operation, s, pool)
    && operation.distinctBacking.Some? && request.view.allocationGeneration != 0
    && (request.consume ==> Consumable(request, operation))
  }

  /** A backing of its own and all four parts of the proof. */
  predicate Consumable(request: Request, operation: Operation)
    requires operation.distinctBacking.Some?
  {
    && operation.distinctBacking.value
    && request.proof.envelopeComplete && request.proof.noExternalReferences
    && request.proof.noReplayRequired && request.proof.failureSemanticsAccepted
  }

  lemma SweepKeepsReferences(pool: PoolState, memory: Allocations, ref: RepresentationRef)
    requires LiveRepresentation(memory, ref)
    ensures References(Swept(pool, memory), ref) <==> References(pool, ref)
  {
    SweptMeaning(pool, memory, |pool.slots|);
    var after := Swept(pool, memory).slots;
    forall i | 0 <= i < |pool.slots| ensures NamesRepresentation(after[i], ref) <==> NamesRepresentation(pool.slots[i], ref) {
    }
  }

  lemma IssueKeepsReferences(pool: PoolState, memory: Allocations, view: CanonicalView, kind: FacetKind, ref: RepresentationRef)
    requires PoolValid(pool) && Issued(pool, memory, view, kind).Some? && view.allocation != ref.allocation
    ensures References(Issued(pool, memory, view, kind).value.0, ref) <==> References(pool, ref)
  {
    var (after, token) := Issued(pool, memory, view, kind).value;
    if pool.free != [] {
      assert pool.free[|pool.free| - 1] in pool.free;
    }
    forall i | 0 <= i < |pool.slots| ensures NamesRepresentation(after.slots[i], ref) <==> NamesRepresentation(pool.slots[i], ref) {
      if i == token.index {
        assert pool.free != [] && token.index in pool.free;
      }
    }
    if References(pool, ref) {
      var i :| 0 <= i < |pool.slots| && NamesRepresentation(pool.slots[i], ref);
      assert NamesRepresentation(after.slots[i], ref);
    }
    if References(after, ref) {
      var i :| 0 <= i < |after.slots| && NamesRepresentation(after.slots[i], ref);
      assert i < |pool.slots|;
    }
  }

  /** What publishing leaves alone: other allocations, tokens that still resolve, and which tokens name the current
      representations of other allocations. */
  ghost predicate PublishedBeside(request: Request, before: ArenaState, pool: PoolState, after: ArenaState, pool': PoolState) {
    && ElsewhereSame(before.allocations, after.allocations, request.view.allocation)
    && after.budget == before.budget
    && (forall t | Resolves(pool, after.allocations, t) :: Resolves(pool', after.allocations, t) && pool'.slots[t.index] == pool.slots[t.index])
    && (forall ref: RepresentationRef | ref.allocation != request.view.allocation && LiveRepresentation(after.allocations, ref) ::
          References(pool', ref) <==> References(pool, ref))
  }

  lemma PublishedState(request: Request, operation: Operation, before: ArenaState, pool: PoolState)
    requires PoolValid(pool) && Publishable(request, operation, before, pool)
    ensures Transformed(before, request.Backing()).Some?
    ensures var after := Transformed(before, request.Backing()).value;
            var swept := Swept(pool, after.allocations);
            && PoolValid(swept) && Issued(swept, after.allocations, request.view, request.kind).Some?
            && var (pool', facet) := Issued(swept, after.allocations, request.view, request.kind).value;
               && PoolValid(pool') && PublishedBeside(request, before, pool, after, pool')
               && Fulfilled(request, after.allocations, pool', facet) && NoneStale(after.allocations, pool'.slots)
  {
    TransformableExactly(request, before);
    var after := Transformed(before, request.Backing()).value;
    var swept := Swept(pool, after.allocations);
    SweepKeepsFresh(pool, after.allocations);
    assert TargetValid(after.allocations, request.view, request.kind);
    IssueKeepsFresh(swept, after.allocations, request.view, request.kind);
    var (pool', facet) := Issued(swept, after.allocations, request.view, request.kind).value;
    SweptMeaning(pool, after.allocations, |pool.slots|);
    forall ref: RepresentationRef | ref.allocation != request.view.allocation && LiveRepresentation(after.allocations, ref)
      ensures References(pool', ref) <==> References(pool, ref)
    {
      SweepKeepsReferences(pool, after.allocations, ref);
      IssueKeepsReferences(swept, after.allocations, request.view, request.kind, ref);
    }
  }

  /** One request: check, transform, retire what went stale, acquire the new facet. */
  method PublishRepresentation(request: Request, operation: Operation, arena: Arena, pool: FacetPool)
    returns (facet: Option<FacetRef>)
    requires PoolValid(pool.State())
    modifies arena, pool
    ensures PoolValid(pool.State())
    ensures CountsKept(old(arena.allocations), arena.allocations) && UsesKept(old(pool.slots), pool.slots)
    ensures facet.Some? <==> Publishable(request, operation, old(arena.State()), old(pool.State()))
    ensures facet.Some? ==>
              && Some(arena.State()) == Transformed(old(arena.State()), request.Backing())
              && PublishedBeside(request, old(arena.State()), old(pool.State()), arena.State(), pool.State())
              && Fulfilled(request, arena.allocations, pool.State(), facet.value)
              && NoneStale(arena.allocations, pool.slots)
  {
    TransformableExactly(request, arena.State());
    UnnamedExactly(request, pool.State());
    if operation.order != request.order || operation.unsupported {
      return None;
    }
    var id := request.view.allocation;
    if !Live(arena.allocations, request.Backing()) || arena.allocations[id].epoch != request.sourceEpoch {
      return None;
    }
    if request.consume && References(pool.State(), request.Superseded()) {
      return None;
    }
    ghost var before, tokens := arena.State(), pool.State();
    var epoch := arena.Transform(request.Backing());
    if epoch.None? {
      return None;
    }
    ghost var changed := Transformed(before, request.Backing()).value;
    assert TargetValid(changed.allocations, request.view, request.kind) <==> TargetValid(before.allocations, request.view, request.kind);
    facet := AcquireTarget(request, epoch.value, arena, pool);
    if Publishable(request, operation, before, tokens) {
      PublishedState(request, operation, before, tokens);
    }
  }

  /** Retires what went stale and acquires the target facet, unless the epoch is not the expected one. */
  method AcquireTarget(request: Request, epoch: U32, arena: Arena, pool: FacetPool) returns (facet: Option<FacetRef>)
    requires PoolValid(pool.State())
    modifies pool
    ensures PoolValid(pool.State()) && UsesKept(old(pool.slots), pool.slots)
    ensures facet.Some? <==> epoch == request.targetEpoch && TargetValid(arena.allocations, request.view, request.kind)
    ensures facet.Some? ==>
              var swept := Swept(old(pool.State()), arena.allocations);
              && PoolValid(swept)
              && Some((pool.State(), facet.value)) == Issued(swept, arena.allocations, request.view, request.kind)
  {
    SweepKeepsUses(pool.State(), arena.allocations);
    SweepKeepsFresh(pool.State(), arena.allocations);
    ghost var tokens := pool.State();
    var retired := pool.RetireStale(arena);
    if epoch != request.targetEpoch {
      return None;
    }
    ghost var swept := pool.State();
    facet := pool.Acquire(arena, request.view, request.kind);
    if facet.Some? {
      IssueKeepsUses(swept, arena.allocations, request.view, request.kind);
      UsesKeptTwice(tokens.slots, swept.slots, pool.slots);
    }
  }

  // ------------------------------------------------------------ the whole commit

  lemma CommitNext(
    requests: seq<Request>, k: nat, before: Allocations, memory: Allocations, pool: PoolState, after: PoolState,
    facets: seq<FacetRef>, facet: FacetRef, representations: seq<RepresentationRef>)
    requires k < |requests| && OneTransformPerAllocation(requests) && CommittedUpTo(requests, k, before, pool, facets, representations)
    requires ElsewhereSame(before, memory, requests[k].view.allocation)
    requires PoolValid(after) && NoneStale(memory, after.slots) && Fulfilled(requests[k], memory, after, facet)
    requires forall t | Resolves(pool, memory, t) :: Resolves(after, memory, t) && after.slots[t.index] == pool.slots[t.index]
    ensures var named := requests[k].Target();
            CommittedUpTo(requests, k + 1, memory, after, facets + [facet],
                          representations + if named in representations then [] else [named])
  {
    forall j | 0 <= j < k ensures Fulfilled(requests[j], memory, after, facets[j]) {
      ElsewhereKeepsFulfilled(requests[j], before, memory, pool, facets[j], requests[k].view.allocation);
      PoolKeepsFulfilled(requests[j], memory, pool, after, facets[j]);
    }
  }

  lemma ConsumeKeepsCommitted(
    requests: seq<Request>, k: nat, before: ArenaState, after: ArenaState, pool: PoolState, facets: seq<FacetRef>,
    representations: seq<RepresentationRef>, ref: RepresentationRef, proof: ConsumeProof)
    requires CommittedUpTo(requests, k, before.allocations, pool, facets, representations)
    requires RepresentationConsumed(before, ref, proof) == Some(after)
    ensures CommittedUpTo(requests, k, after.allocations, pool, facets, representations)
  {
    if k > 0 {
      SameEpochsKeepFresh(before.allocations, after.allocations, pool.slots);
    }
    forall j | 0 <= j < k ensures Fulfilled(requests[j], after.allocations, pool, facets[j]) {
      assert Fulfilled(requests[j], before.allocations, pool, facets[j]);
    }
  }

  /** A request on another allocation can be committed after a request exactly when it could before it. */
  lemma OtherRequestsUnaffected(
    request: Request, operation: Operation, done: Request, before: ArenaState, pool: PoolState, after: ArenaState,
    pool': PoolState)
    requires request.view.allocation != done.view.allocation && PublishedBeside(done, before, pool, after, pool')
    ensures Committable(request, operation, after, pool') <==> Committable(request, operation, before, pool)
  {
    TransformableExactly(request, before);
    TransformableExactly(request, after);
    UnnamedExactly(request, pool);
    UnnamedExactly(request, pool');
  }

  /** Tokens of allocations that the first `k` requests do not touch resolve as before, and live allocations stay live. */
  ghost predicate BesideAll(
    requests: seq<Request>, k: nat, before: ArenaState, pool: PoolState, after: ArenaState, pool': PoolState)
  {
    && k <= |requests|
    && (forall r | Live(before.allocations, r) :: Live(after.allocations, r))
    && (forall t | Resolves(pool, before.allocations, t) && Spared(requests, k, pool, t) ::
          Resolves(pool', after.allocations, t) && pool'.slots[t.index] == pool.slots[t.index])
  }

  /** None of the first `k` requests transforms the allocation behind the token. */
  ghost predicate Spared(requests: seq<Request>, k: nat, pool: PoolState, t: FacetRef) {
    t.index < |pool.slots| &&
    forall j | 0 <= j < k && j < |requests| :: requests[j].view.allocation != pool.slots[t.index].view.allocation
  }

  lemma BesideNext(
    requests: seq<Request>, k: nat, start: ArenaState, startPool: PoolState, before: ArenaState, pool: PoolState,
    after: ArenaState, pool': PoolState)
    requires k < |requests| && BesideAll(requests, k, start, startPool, before, pool)
    requires PublishedBeside(requests[k], before, pool, after, pool')
    requires Some(after) == Transformed(before, requests[k].Backing())
    ensures BesideAll(requests, k + 1, start, startPool, after, pool')
  {
    forall t | Resolves(startPool, start.allocations, t) && Spared(requests, k + 1, startPool, t)
      ensures Resolves(pool', after.allocations, t) && pool'.slots[t.index] == startPool.slots[t.index]
    {
      assert Spared(requests, k, startPool, t);
      assert requests[k].view.allocation != startPool.slots[t.index].view.allocation;
      assert Resolves(pool, after.allocations, t);
    }
  }

  lemma BesideConsume(
    requests: seq<Request>, k: nat, start: ArenaState, startPool: PoolState, before: ArenaState, after: ArenaState,
    pool: PoolState, ref: RepresentationRef, proof: ConsumeProof)
    requires BesideAll(requests, k, start, startPool, before, pool) && RepresentationConsumed(before, ref, proof) == Some(after)
    ensures BesideAll(requests, k, start, startPool, after, pool)
  {
    forall t | Resolves(pool, before.allocations, t) ensures Resolves(pool, after.allocations, t) {}
  }

  /** Whether the remaining requests can be committed is not changed by consuming an earlier one. */
  lemma ConsumeLeavesOthers(
    request: Request, operation: Operation, before: ArenaState, after: ArenaState, pool: PoolState,
    ref: RepresentationRef, proof: ConsumeProof)
    requires RepresentationConsumed(before, ref, proof) == Some(after) && ref.allocation != request.view.allocation
    ensures Committable(request, operation, after, pool) <==> Committable(request, operation, before, pool)
  {}

  ghost predicate CommittableFrom(
    requests: seq<Request>, operations: seq<Operation>, k: nat, s: ArenaState, pool: PoolState)
    requires |operations| == |requests|
  {
    forall j | k <= j < |requests| :: Committable(requests[j], operations[j], s, pool)
  }

  /** Success or failure of a commit, and what it sealed.  An empty plan succeeds and seals nothing. */
  datatype Commit = Failed | Nothing | Committed(epoch: RepresentationEpoch, facets: seq<FacetRef>)

  ghost predicate CommitExact(
    requests: seq<Request>, before: ArenaState, pool: PoolState, c: Commit, after: ArenaState, pool': PoolState)
  {
    match c
    case Failed => true
    case Nothing => requests == [] && after == before && pool' == pool
    case Committed(epoch, facets) =>
      && requests != []
      && CommittedUpTo(requests, |requests|, after.allocations, pool', facets, epoch.representations)
      && !epoch.Stale(after.allocations) && epoch.value == after.clock
      && (forall t :: t in epoch.facets <==> t in facets)
      && BesideAll(requests, |requests|, before, pool, after, pool')
  }

  /** Publishes one new representation per request, and succeeds exactly when there are as many operations as requests
      and every request could be committed on its own.  On success every returned facet resolves to its request's view
      at exactly one epoch past the source epoch, no active facet of the pool is stale, the sealed epoch names exactly
      the new representations and is not stale, and tokens of other allocations resolve as before.  Failure is not
      rolled back, but leaves a valid pool, and either way no in-flight count moves. */
  method CommitRepresentationOperations(requests: seq<Request>, operations: seq<Operation>, arena: Arena, pool: FacetPool)
    returns (c: Commit)
    requires PoolValid(pool.State()) && OneTransformPerAllocation(requests)
    modifies arena, pool
    ensures PoolValid(pool.State())
    ensures !c.Failed? <==>
              requests == [] ||
              (|operations| == |requests| && CommittableFrom(requests, operations, 0, old(arena.State()), old(pool.State())))
    ensures CountsKept(old(arena.allocations), arena.allocations) && UsesKept(old(pool.slots), pool.slots)
    ensures CommitExact(requests, old(arena.State()), old(pool.State()), c, arena.State(), pool.State())
  {
    if requests == [] {
      return Nothing;
    }
    if |operations| != |requests| {
      return Failed;
    }
    ghost var start, startPool := arena.State(), pool.State();
    var facets: seq<FacetRef> := [];
    var builder := new RepresentationEpochBuilder();
    for k := 0 to |requests|
      invariant !builder.isSealed && fresh(builder)
      invariant CommittedUpTo(requests, k, arena.allocations, pool.State(), facets, builder.representations)
      invariant CountsKept(start.allocations, arena.allocations) && UsesKept(startPool.slots, pool.slots)
      invariant BesideAll(requests, k, start, startPool, arena.State(), pool.State())
      invariant CommittableFrom(requests, operations, k, arena.State(), pool.State())
                <==> CommittableFrom(requests, operations, 0, start, startPool)
      invariant forall t :: t in builder.facets <==> t in facets
    {
      ghost var before, tokens := arena.State(), pool.State();
      var facet := CommitOne(requests, operations, k, arena, pool, builder, facets, start, startPool);
      CountsKeptTwice(start.allocations, before.allocations, arena.allocations);
      UsesKeptTwice(startPool.slots, tokens.slots, pool.slots);
      assert CommittableFrom(requests, operations, k, before, tokens) <==>
             Committable(requests[k], operations[k], before, tokens) && CommittableFrom(requests, operations, k + 1, before, tokens);
      if facet.None? {
        return Failed;
      }
      facets := facets + [facet.value];
    }
    TargetsAreLive(requests, arena.allocations, pool.State(), facets, builder.representations);
    var epoch := builder.Seal(arena);
    c := Committed(epoch.value, facets);
  }

  /** What publishing and recording request `k` does to the commit as a whole. */
  lemma PublishedNext(
    requests: seq<Request>, operations: seq<Operation>, k: nat, start: ArenaState, startPool: PoolState,
    before: ArenaState, pool: PoolState, after: ArenaState, pool': PoolState, facets: seq<FacetRef>, facet: FacetRef,
    representations: seq<RepresentationRef>)
    requires k < |requests| == |operations| && OneTransformPerAllocation(requests)
    requires CommittedUpTo(requests, k, before.allocations, pool, facets, representations)
    requires BesideAll(requests, k, start, startPool, before, pool)
    requires PublishedBeside(requests[k], before, pool, after, pool')
    requires Some(after) == Transformed(before, requests[k].Backing())
    requires PoolValid(pool') && NoneStale(after.allocations, pool'.slots) && Fulfilled(requests[k], after.allocations, pool', facet)
    ensures var named := requests[k].Target();
            CommittedUpTo(requests, k + 1, after.allocations, pool', facets + [facet],
                          representations + if named in representations then [] else [named])
    ensures BesideAll(requests, k + 1, start, startPool, after, pool')
    ensures CommittableFrom(requests, operations, k + 1, after, pool') <==> CommittableFrom(requests, operations, k + 1, before, pool)
  {
    CommitNext(requests, k, before.allocations, after.allocations, pool, pool', facets, facet, representations);
    BesideNext(requests, k, start, startPool, before, pool, after, pool');
    forall j | k < j < |requests|
      ensures Committable(requests[j], operations[j], after, pool') <==> Committable(requests[j], operations[j], before, pool)
    {
      OtherRequestsUnaffected(requests[j], operations[j], requests[k], before, pool, after, pool');
    }
  }

  /** Consuming the representation request `k` published leaves the commit as it is. */
  lemma ConsumedNext(
    requests: seq<Request>, operations: seq<Operation>, k: nat, start: ArenaState, startPool: PoolState,
    before: ArenaState, after: ArenaState, pool: PoolState, facets: seq<FacetRef>, representations: seq<RepresentationRef>)
    requires k < |requests| == |operations| && OneTransformPerAllocation(requests)
    requires CommittedUpTo(requests, k + 1, before.allocations, pool, facets, representations)
    requires BesideAll(requests, k + 1, start, startPool, before, pool)
    requires RepresentationConsumed(before, requests[k].Target(), requests[k].proof) == Some(after)
    ensures CommittedUpTo(requests, k + 1, after.allocations, pool, facets, representations)
    ensures BesideAll(requests, k + 1, start, startPool, after, pool)
    ensures CommittableFrom(requests, operations, k + 1, after, pool) <==> CommittableFrom(requests, operations, k + 1, before, pool)
  {
    var ref, proof := requests[k].Target(), requests[k].proof;
    ConsumeKeepsCommitted(requests, k + 1, before, after, pool, facets, representations, ref, proof);
    BesideConsume(requests, k + 1, start, startPool, before, after, pool, ref, proof);
    forall j | k < j < |requests|
      ensures Committable(requests[j], operations[j], after, pool) <==> Committable(requests[j], operations[j], before, pool)
    {
      ConsumeLeavesOthers(requests[j], operations[j], before, after, pool, ref, proof);
    }
  }

  /** Publishes one request's representation and records its facet. */
  method PublishOne(
    requests: seq<Request>, operations: seq<Operation>, k: nat, arena: Arena, pool: FacetPool,
    builder: RepresentationEpochBuilder, facets: seq<FacetRef>, ghost start: ArenaState, ghost startPool: PoolState)
    returns (facet: Option<FacetRef>)
    requires k < |requests| == |operations| && OneTransformPerAllocation(requests) && !builder.isSealed
    requires CommittedUpTo(requests, k, arena.allocations, pool.State(), facets, builder.representations)
    requires BesideAll(requests, k, start, startPool, arena.State(), pool.State())
    requires forall t :: t in builder.facets <==> t in facets
    modifies arena, pool, builder
    ensures PoolValid(pool.State()) && builder.isSealed == old(builder.isSealed)
    ensures CountsKept(old(arena.allocations), arena.allocations) && UsesKept(old(pool.slots), pool.slots)
    ensures facet.Some? <==>
              && Publishable(requests[k], operations[k], old(arena.State()), old(pool.State()))
              && operations[k].distinctBacking.Some? && requests[k].view.allocationGeneration != 0
    ensures facet.Some? ==>
              && CommittedUpTo(requests, k + 1, arena.allocations, pool.State(), facets + [facet.value], builder.representations)
              && BesideAll(requests, k + 1, start, startPool, arena.State(), pool.State())
              && (forall t :: t in builder.facets <==> t in facets + [facet.value])
              && (CommittableFrom(requests, operations, k + 1, arena.State(), pool.State())
                  <==> CommittableFrom(requests, operations, k + 1, old(arena.State()), old(pool.State())))
              && Idle(requests[k], arena.allocations)
  {
    ghost var before, poolBefore, listed := arena.State(), pool.State(), builder.representations;
    facet := PublishRepresentation(requests[k], operations[k], arena, pool);
    if facet.None? || operations[k].distinctBacking.None? {
      return None;
    }
    var added := builder.AddFacet(arena, pool, facet.value);
    if !added {
      return None;
    }
    PublishedNext(requests, operations, k, start, startPool, before, poolBefore, arena.State(), pool.State(), facets,
                  facet.value, listed);
  }

  /** The request's new representation is the live one, and nothing uses its allocation. */
  ghost predicate Idle(request: Request, memory: Allocations) {
    LiveRepresentation(memory, request.Target()) && memory[request.view.allocation].inFlight == 0
  }

  /** Releases the superseded bytes if the request asks for it. */
  method ConsumeOne(
    requests: seq<Request>, operations: seq<Operation>, k: nat, arena: Arena, pool: FacetPool, facets: seq<FacetRef>,
    ghost representations: seq<RepresentationRef>, ghost start: ArenaState, ghost startPool: PoolState)
    returns (ok: bool)
    requires k < |requests| == |operations| && OneTransformPerAllocation(requests)
    requires operations[k].distinctBacking.Some? && Idle(requests[k], arena.allocations)
    requires CommittedUpTo(requests, k + 1, arena.allocations, pool.State(), facets, representations)
    requires BesideAll(requests, k + 1, start, startPool, arena.State(), pool.State())
    modifies arena
    ensures CountsKept(old(arena.allocations), arena.allocations)
    ensures ok <==> (requests[k].consume ==> Consumable(requests[k], operations[k]))
    ensures ok ==>
              && CommittedUpTo(requests, k + 1, arena.allocations, pool.State(), facets, representations)
              && BesideAll(requests, k + 1, start, startPool, arena.State(), pool.State())
              && (CommittableFrom(requests, operations, k + 1, arena.State(), pool.State())
                  <==> CommittableFrom(requests, operations, k + 1, old(arena.State()), pool.State()))
  {
    if !requests[k].consume {
      return true;
    }
    if !operations[k].distinctBacking.value {
      return false;
    }
    ghost var published := arena.State();
    var released := arena.ConsumeRepresentation(requests[k].Target(), requests[k].proof);
    if released.None? {
      return false;
    }
    ConsumedNext(requests, operations, k, start, startPool, published, arena.State(), pool.State(), facets, representations);
    ok := true;
  }

  /** One turn of the commit: publishes, records and, if asked to, consumes. */
  method CommitOne(
    requests: seq<Request>, operations: seq<Operation>, k: nat, arena: Arena, pool: FacetPool,
    builder: RepresentationEpochBuilder, facets: seq<FacetRef>, ghost start: ArenaState, ghost startPool: PoolState)
    returns (facet: Option<FacetRef>)
    requires k < |requests| == |operations| && OneTransformPerAllocation(requests) && !builder.isSealed
    requires CommittedUpTo(requests, k, arena.allocations, pool.State(), facets, builder.representations)
    requires BesideAll(requests, k, start, startPool, arena.State(), pool.State())
    requires forall t :: t in builder.facets <==> t in facets
    modifies arena, pool, builder
    ensures PoolValid(pool.State()) && builder.isSealed == old(builder.isSealed)
    ensures CountsKept(old(arena.allocations), arena.allocations) && UsesKept(old(pool.slots), pool.slots)
    ensures facet.Some? <==> Committable(requests[k], operations[k], old(arena.State()), old(pool.State()))
    ensures facet.Some? ==>
              && CommittedUpTo(requests, k + 1, arena.allocations, pool.State(), facets + [facet.value], builder.representations)
              && BesideAll(requests, k + 1, start, startPool, arena.State(), pool.State())
              && (forall t :: t in builder.facets <==> t in facets + [facet.value])
              && (CommittableFrom(requests, operations, k + 1, arena.State(), pool.State())
                  <==> CommittableFrom(requests, operations, k + 1, old(arena.State()), old(pool.State())))
  {
    ghost var memory := arena.allocations;
    facet := PublishOne(requests, operations, k, arena, pool, builder, facets, start, startPool);
    if facet.None? {
      return None;
    }
    ghost var published := arena.allocations;
    var consumed := ConsumeOne(requests, operations, k, arena, pool, facets + [facet.value], builder.representations,
                               start, startPool);
    CountsKeptTwice(memory, published, arena.allocations);
    if !consumed {
      return None;
    }
  }

  lemma TargetsAreLive(
    requests: seq<Request>, memory: Allocations, pool: PoolState, facets: seq<FacetRef>, representations: seq<RepresentationRef>)
    requires CommittedUpTo(requests, |requests|, memory, pool, facets, representations)
    ensures forall r | r in representations :: LiveRepresentation(memory, r)
  {
    forall r | r in representations ensures LiveRepresentation(memory, r) {
      var j :| 0 <= j < |requests| && requests[j].Target() == r;
      assert Fulfilled(requests[j], memory, pool, facets[j]);
    }
  }

  /** After a commit no active facet names a superseded representation. */
  lemma NoTokenForSuperseded(
    requests: seq<Request>, memory: Allocations, pool: PoolState, facets: seq<FacetRef>,
    representations: seq<RepresentationRef>, k: nat, i: nat)
    requires CommittedUpTo(requests, |requests|, memory, pool, facets, representations)
    requires k < |requests| && i < |pool.slots| && pool.slots[i].active
    ensures pool.slots[i].Backing() == requests[k].Backing() ==>
              pool.slots[i].epoch == requests[k].targetEpoch && pool.slots[i].epoch != requests[k].sourceEpoch
  {
    assert Fulfilled(requests[k], memory, pool, facets[k]);
    assert !Stale(pool.slots[i], memory);
  }
}
