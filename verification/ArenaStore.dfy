/** The arena's operations, as functions on its state and as the class that updates it in place
    (src/core/arena.h, src/core/arena.cpp). */
module ArenaStore {
  import opened Ir
  import opened Arenas
  import opened Wrappers

  datatype ConsumeProof = ConsumeProof(
    envelopeComplete: bool, noExternalReferences: bool, noReplayRequired: bool, failureSemanticsAccepted: bool)
  {
    predicate Complete() {
      envelopeComplete && noExternalReferences && noReplayRequired && failureSemanticsAccepted
    }
  }

  /** Unsigned counters wrap. */
  function Bump32(x: U32): U32 {
    if x == U32_MAX then 0 else x + 1
  }

  function Bump64(x: U64): U64 {
    if x == U64_MAX then 0 else x + 1
  }

  datatype ArenaState = ArenaState(
    allocations: Allocations, nextId: U64, topologyEpoch: U64, clock: U64, budget: U32)
  {
    function Update(id: U64, a: Allocation): ArenaState {
      this.(allocations := allocations[id := a])
    }
  }

  const FRESH_ALLOCATION := Allocation(1, 0, Active, 0, 0, 1, [])

  /** Zeroed backing of the given size under a new id. */
  function Allocated(s: ArenaState, size: U64): ArenaState {
    var a := FRESH_ALLOCATION.(size := size, bytes := seq(size, _ => 0));
    s.(nextId := Bump64(s.nextId), topologyEpoch := Bump64(s.topologyEpoch),
       allocations := if s.nextId in s.allocations then s.allocations else s.allocations[s.nextId := a])
  }

  function Imported(s: ArenaState, ref: RepresentationRef, size: U64, state: ObjectState, bytes: seq<Byte>): Option<ArenaState> {
    if ref.allocation == 0 || ref.generation == 0 || size == 0 || |bytes| != size || ref.allocation in s.allocations then None
    else
      var next := Bump64(ref.allocation);
      Some(s.(allocations := s.allocations[ref.allocation := Allocation(ref.generation, size, state, ref.epoch, 0, 1, bytes)],
              nextId := if s.nextId < next then next else s.nextId,
              topologyEpoch := Bump64(s.topologyEpoch)))
  }

  function ObjectRetired(s: ArenaState, ref: PointerRef): Option<ArenaState> {
    if !Live(s.allocations, ref) || s.allocations[ref.allocation].inFlight != 0 then None
    else
      var a := s.allocations[ref.allocation];
      Some(s.Update(ref.allocation, a.(state := ObjectState.Retired, generation := Bump32(a.generation)))
           .(topologyEpoch := Bump64(s.topologyEpoch)))
  }

  function Acquired(s: ArenaState, ref: PointerRef): Option<ArenaState> {
    if !Live(s.allocations, ref) then None
    else
      var a := s.allocations[ref.allocation];
      Some(s.Update(ref.allocation, a.(inFlight := Bump32(a.inFlight))))
  }

  function Released(s: ArenaState, ref: PointerRef): Option<ArenaState> {
    if !Live(s.allocations, ref) || s.allocations[ref.allocation].inFlight == 0 then None
    else
      var a := s.allocations[ref.allocation];
      Some(s.Update(ref.allocation, a.(inFlight := a.inFlight - 1)))
  }

  function Transformed(s: ArenaState, ref: PointerRef): Option<ArenaState> {
    if !Live(s.allocations, ref) || s.allocations[ref.allocation].inFlight != 0 then None
    else if s.budget != 0 && s.allocations[ref.allocation].live >= s.budget then None
    else
      var a := s.allocations[ref.allocation];
      Some(s.Update(ref.allocation, a.(epoch := Bump32(a.epoch), live := Bump32(a.live)))
           .(clock := Bump64(s.clock)))
  }

  function RepresentationReleased(s: ArenaState, ref: PointerRef): Option<ArenaState> {
    if !Live(s.allocations, ref) || s.allocations[ref.allocation].live <= 1 then None
    else
      var a := s.allocations[ref.allocation];
      Some(s.Update(ref.allocation, a.(live := a.live - 1)).(clock := Bump64(s.clock)))
  }

  function RepresentationConsumed(s: ArenaState, ref: RepresentationRef, proof: ConsumeProof): Option<ArenaState> {
    if !proof.Complete() || !LiveRepresentation(s.allocations, ref) || s.allocations[ref.allocation].inFlight != 0 then None
    else
      var a := s.allocations[ref.allocation];
      Some(s.Update(ref.allocation, a.(bytes := [], live := 1)).(clock := Bump64(s.clock)))
  }

  function Consumed(s: ArenaState, ref: RepresentationRef, proof: ConsumeProof): Option<ArenaState> {
    if !proof.Complete() || !LiveRepresentation(s.allocations, ref) || s.allocations[ref.allocation].inFlight != 0 then None
    else
      var a := s.allocations[ref.allocation];
      Some(s.Update(ref.allocation, a.(state := ObjectState.Retired, generation := Bump32(a.generation), live := 0, bytes := []))
           .(topologyEpoch := Bump64(s.topologyEpoch), clock := Bump64(s.clock)))
  }

  /** The reference names an active allocation under its present generation. */
  predicate Names(ref: PointerRef, memory: Allocations) {
    && ref.allocation in memory && memory[ref.allocation].state == ObjectState.Active
    && memory[ref.allocation].generation == ref.generation
  }

  /** The allocation is on record as retired, under another generation than the reference names. */
  predicate OutOfDate(memory: Allocations, ref: PointerRef) {
    && ref.allocation in memory && memory[ref.allocation].state.Retired?
    && memory[ref.allocation].generation != ref.generation
  }

  class Arena {
    var allocations: Allocations
    var nextId: U64
    var topologyEpoch: U64
    var clock: U64
    var budget: U32

    constructor ()
      ensures State() == ArenaState(map[], 1, 0, 0, 0)
    {
      allocations, nextId, topologyEpoch, clock, budget := map[], 1, 0, 0, 0;
    }

    function State(): ArenaState
      reads this
    {
      ArenaState(allocations, nextId, topologyEpoch, clock, budget)
    }

    method Allocate(size: U64) returns (id: U64)
      modifies this
      ensures State() == Allocated(old(State()), size) && id == old(nextId) && id in allocations
      ensures id !in old(allocations) ==>
                var a := allocations[id];
                && a.size == |a.bytes| == size && (forall k | 0 <= k < size :: a.bytes[k] == 0)
                && a.generation == 1 && a.state.Active? && a.epoch == 0 && a.inFlight == 0 && a.live == 1
    {
      id := nextId;
      nextId := Bump64(nextId);
      topologyEpoch := Bump64(topologyEpoch);
      if id !in allocations {
        allocations := allocations[id := FRESH_ALLOCATION.(size := size, bytes := seq(size, _ => 0))];
      }
    }

    method Import(ref: RepresentationRef, size: U64, state: ObjectState, bytes: seq<Byte>) returns (ok: bool)
      modifies this
      ensures var r := Imported(old(State()), ref, size, state, bytes);
              ok == r.Some? && State() == if ok then r.value else old(State())
      ensures ok <==> ref.allocation > 0 && ref.generation > 0 && size > 0 && size == |bytes| && ref.allocation !in old(allocations)
      ensures ok ==> allocations == old(allocations)[ref.allocation := Allocation(ref.generation, size, state, ref.epoch, 0, 1, bytes)]
    {
      if ref.allocation == 0 || ref.generation == 0 || size == 0 || |bytes| != size || ref.allocation in allocations {
        return false;
      }
      allocations := allocations[ref.allocation := Allocation(ref.generation, size, state, ref.epoch, 0, 1, bytes)];
      var next := Bump64(ref.allocation);
      if nextId < next {
        nextId := next;
      }
      topologyEpoch := Bump64(topologyEpoch);
      ok := true;
    }

    method Retire(ref: PointerRef) returns (ok: bool)
      modifies this
      ensures var r := ObjectRetired(old(State()), ref);
              ok == r.Some? && State() == if ok then r.value else old(State())
      ensures ok ==> OutOfDate(allocations, ref)
    {
      if !Live(allocations, ref) || allocations[ref.allocation].inFlight != 0 {
        return false;
      }
      var a := allocations[ref.allocation];
      allocations := allocations[ref.allocation := a.(state := ObjectState.Retired, generation := Bump32(a.generation))];
      topologyEpoch := Bump64(topologyEpoch);
      ok := true;
    }

    method Acquire(ref: PointerRef) returns (ok: bool)
      modifies this
      ensures var r := Acquired(old(State()), ref);
              ok == r.Some? && State() == if ok then r.value else old(State())
      ensures ok <==> Names(ref, old(allocations))
      ensures ok && old(allocations)[ref.allocation].inFlight < U32_MAX ==>
                allocations[ref.allocation].inFlight == old(allocations)[ref.allocation].inFlight + 1
    {
      if !Live(allocations, ref) {
        return false;
      }
      var a := allocations[ref.allocation];
      allocations := allocations[ref.allocation := a.(inFlight := Bump32(a.inFlight))];
      ok := true;
    }

    method Release(ref: PointerRef) returns (ok: bool)
      modifies this
      ensures var r := Released(old(State()), ref);
              ok == r.Some? && State() == if ok then r.value else old(State())
      ensures ok <==> Names(ref, old(allocations)) && old(allocations)[ref.allocation].inFlight > 0
      ensures ok ==> allocations[ref.allocation].inFlight + 1 == old(allocations)[ref.allocation].inFlight
    {
      if !Live(allocations, ref) || allocations[ref.allocation].inFlight == 0 {
        return false;
      }
      var a := allocations[ref.allocation];
      allocations := allocations[ref.allocation := a.(inFlight := a.inFlight - 1)];
      ok := true;
    }

    method Transform(ref: PointerRef) returns (newEpoch: Option<U32>)
      modifies this
      ensures var r := Transformed(old(State()), ref);
              && newEpoch.Some? == r.Some? && State() == (if r.Some? then r.value else old(State()))
              && (newEpoch.Some? ==> newEpoch.value == allocations[ref.allocation].epoch)
      ensures newEpoch.Some? <==>
                && Names(ref, old(allocations)) && old(allocations)[ref.allocation].inFlight == 0
                && (budget == 0 || old(allocations)[ref.allocation].live < budget)
      ensures newEpoch.Some? && old(allocations)[ref.allocation].epoch < U32_MAX ==>
                newEpoch.value == old(allocations)[ref.allocation].epoch + 1
    {
      if !Live(allocations, ref) || allocations[ref.allocation].inFlight != 0 {
        return None;
      }
      var a := allocations[ref.allocation];
      if budget != 0 && a.live >= budget {
        return None;
      }
      allocations := allocations[ref.allocation := a.(epoch := Bump32(a.epoch), live := Bump32(a.live))];
      clock := Bump64(clock);
      newEpoch := Some(Bump32(a.epoch));
    }

    method ReleaseRepresentation(ref: PointerRef) returns (ok: bool)
      modifies this
      ensures var r := RepresentationReleased(old(State()), ref);
              ok == r.Some? && State() == if ok then r.value else old(State())
      ensures ok <==> Names(ref, old(allocations)) && old(allocations)[ref.allocation].live > 1
      ensures ok ==> allocations[ref.allocation].live + 1 == old(allocations)[ref.allocation].live
    {
      if !Live(allocations, ref) || allocations[ref.allocation].live <= 1 {
        return false;
      }
      var a := allocations[ref.allocation];
      allocations := allocations[ref.allocation := a.(live := a.live - 1)];
      clock := Bump64(clock);
      ok := true;
    }

    method ConsumeRepresentation(ref: RepresentationRef, proof: ConsumeProof) returns (released: Option<nat>)
      modifies this
      ensures var r := RepresentationConsumed(old(State()), ref, proof);
              && released.Some? == r.Some? && State() == (if r.Some? then r.value else old(State()))
              && (released.Some? ==> released.value == |old(allocations)[ref.allocation].bytes|)
      ensures released.Some? <==>
                && Names(PointerRef(ref.allocation, ref.generation), old(allocations))
                && old(allocations)[ref.allocation].epoch == ref.epoch && old(allocations)[ref.allocation].inFlight == 0
                && proof.envelopeComplete && proof.noExternalReferences && proof.noReplayRequired && proof.failureSemanticsAccepted
      ensures released.Some? ==> allocations[ref.allocation] == old(allocations)[ref.allocation].(bytes := [], live := 1)
    {
      if !proof.Complete() || !LiveRepresentation(allocations, ref) || allocations[ref.allocation].inFlight != 0 {
        return None;
      }
      var a := allocations[ref.allocation];
      allocations := allocations[ref.allocation := a.(bytes := [], live := 1)];
      clock := Bump64(clock);
      released := Some(|a.bytes|);
    }

    method Consume(ref: RepresentationRef, proof: ConsumeProof) returns (ok: bool)
      modifies this
      ensures var r := Consumed(old(State()), ref, proof);
              ok == r.Some? && State() == if ok then r.value else old(State())
      ensures ok ==> OutOfDate(allocations, PointerRef(ref.allocation, ref.generation)) && allocations[ref.allocation].bytes == []
    {
      if !proof.Complete() || !LiveRepresentation(allocations, ref) || allocations[ref.allocation].inFlight != 0 {
        return false;
      }
      var a := allocations[ref.allocation];
      allocations := allocations[ref.allocation :=
        a.(state := ObjectState.Retired, generation := Bump32(a.generation), live := 0, bytes := [])];
      topologyEpoch := Bump64(topologyEpoch);
      clock := Bump64(clock);
      ok := true;
    }
  }
}
