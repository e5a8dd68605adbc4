/** The facet pool: generation-tagged capability slots with deferred reuse
    (src/core/facet.h, src/core/facet.cpp). */
module Facets {
  import opened Ir
  import opened Arenas
  import opened ArenaStore
  import opened Wrappers
  import opened Bytes
  import opened CanonicalViews

  datatype FacetRef = FacetRef(index: nat, generation: U32)

  datatype FacetKind = Address | Sample | Storage | Attachment | Transfer

  datatype FacetStatus = Ok | UnknownIndex | SlotRetired | GenerationMismatch | EpochStale | AllocationLost

  datatype FacetSlot = FacetSlot(
    generation: U32, active: bool, kind: FacetKind, view: CanonicalView, epoch: U32, inFlight: U32,
    inFlightGeneration: U32)
  {
    function Backing(): PointerRef {
      PointerRef(view.allocation, view.allocationGeneration)
    }
  }

  datatype PoolState = PoolState(slots: seq<FacetSlot>, free: seq<nat>)

  // ------------------------------------------------------------ the operations

  /** The shape, format and backing checks; the size check uses the wrapped 64-bit size. */
  predicate TargetValid(memory: Allocations, view: CanonicalView, kind: FacetKind) {
    && view.Valid()
    && (view.format.Depth32Float? ==> kind.Attachment?)
    && (view.format.R16Uint? || view.format.R32Uint? ==> kind.Address?)
    && Live(memory, PointerRef(view.allocation, view.allocationGeneration))
    && Wrap64(view.ByteSize()) <= memory[view.allocation].size
  }

  /** An accepted target's texels all lie inside its allocation exactly when its size fits 64 bits, for the check
      compares the wrapped size. */
  lemma TargetBacksExactly(memory: Allocations, v: CanonicalView, kind: FacetKind)
    requires TargetValid(memory, v, kind)
    ensures (forall c: Cell | c.In(v) :: c.Offset(v) + v.format.BytesPerTexel() <= memory[v.allocation].size)
            <==> v.ByteSize() <= U64_MAX
  {
    ValidHasBytes(v);
    var last := LastCell(v);
    forall c: Cell | c.In(v) ensures c.Offset(v) + v.format.BytesPerTexel() <= v.ByteSize() {
      CellInBounds(v, c);
    }
  }

  /** Four bytes for each of 2^31 by 2^31 texels: a size of 2^64. */
  function VastView(allocation: U64): CanonicalView {
    CanonicalView(allocation, 1, RGBA8Unorm, Texture2D, 0x8000_0000, 0x8000_0000, 1, 1)
  }

  /** Such a view is accepted over any live allocation, however small, and not all its texels lie inside. */
  lemma VastViewAccepted(memory: Allocations, allocation: U64)
    requires Live(memory, PointerRef(allocation, 1))
    ensures var v := VastView(allocation);
            && TargetValid(memory, v, Sample) && v.ByteSize() == TWO64
            && exists c: Cell :: c.In(v) && c.Offset(v) + v.format.BytesPerTexel() > memory[allocation].size
  {
    var v := VastView(allocation);
    assert v.MipWidth(0) == 0x8000_0000 && v.MipHeight(0) == 0x8000_0000;
    assert v.LevelBytes(0) == TWO64;
    assert v.LevelStart(1) == v.LevelStart(0) + v.LevelBytes(0);
    assert v.ByteSize() == TWO64;
    assert Wrap64(TWO64) == Wrap64(0) == 0;
    TargetBacksExactly(memory, v, Sample);
  }

  /** Two layers of that: a size of 2^65. */
  function VastArray(allocation: U64): CanonicalView {
    VastView(allocation).(dimension := Texture2DArray, arrayLayers := 2)
  }

  /** Such a view is accepted over any live allocation too, and the executor finds the first texel of its second layer
      at the address of the first texel of its first. */
  lemma VastArrayCollides(memory: Allocations, allocation: U64)
    requires Live(memory, PointerRef(allocation, 1))
    ensures var v, first, second := VastArray(allocation), Cell(0, 0, 0, 0), Cell(1, 0, 0, 0);
            && TargetValid(memory, v, Sample) && v.ByteSize() == 2 * TWO64
            && first.In(v) && second.In(v) && first.Offset(v) == 0 && second.Offset(v) == TWO64
            && Wrap64(second.Offset(v)) == Wrap64(first.Offset(v)) != second.Offset(v)
  {
    var v, second := VastArray(allocation), Cell(1, 0, 0, 0);
    assert v.MipWidth(0) == 0x8000_0000 && v.MipHeight(0) == 0x8000_0000;
    assert v.LevelBytes(0) == TWO64;
    assert v.LevelStart(1) == v.LevelStart(0) + v.LevelBytes(0);
    assert v.LayerBytes() == TWO64 && v.ByteSize() == 2 * TWO64;
    assert second.Offset(v) == TWO64;
    assert Wrap64(0) == Wrap64(TWO64) == Wrap64(2 * TWO64) == 0;
  }

  function Issued(s: PoolState, memory: Allocations, view: CanonicalView, kind: FacetKind): Option<(PoolState, FacetRef)>
    requires forall i | i in s.free :: i < |s.slots|
  {
    if !TargetValid(memory, view, kind) then None
    else
      var slot := FacetSlot(1, true, kind, view, memory[view.allocation].epoch, 0, 0);
      if s.free != [] then
        var last := |s.free| - 1;
        var index := s.free[last];
        assert index in s.free;
        var generation := s.slots[index].generation;
        Some((PoolState(s.slots[index := slot.(generation := generation)], s.free[..last]), FacetRef(index, generation)))
      else
        Some((PoolState(s.slots + [slot], s.free), FacetRef(|s.slots|, 1)))
  }

  /** Why a token does or does not resolve, in the order in which the reasons are tried. */
  function Status(s: PoolState, memory: Allocations, ref: FacetRef): FacetStatus {
    if ref.index >= |s.slots| then UnknownIndex
    else
      var slot := s.slots[ref.index];
      if !slot.active then SlotRetired
      else if slot.generation != ref.generation then GenerationMismatch
      else if !Live(memory, slot.Backing()) then AllocationLost
      else if memory[slot.view.allocation].epoch != slot.epoch then EpochStale
      else Ok
  }

  predicate Resolves(s: PoolState, memory: Allocations, ref: FacetRef) {
    Status(s, memory, ref).Ok?
  }

  function RetireSlot(s: PoolState, index: nat): (r: PoolState)
    requires index < |s.slots|
  {
    var slot := s.slots[index];
    PoolState(s.slots[index := slot.(active := false, generation := Bump32(slot.generation))],
              if slot.inFlight == 0 then s.free + [index] else s.free)
  }

  function RetiredToken(s: PoolState, ref: FacetRef): Option<PoolState> {
    if ref.index >= |s.slots| || !s.slots[ref.index].active || s.slots[ref.index].generation != ref.generation then None
    else Some(RetireSlot(s, ref.index))
  }

  predicate Stale(slot: FacetSlot, memory: Allocations) {
    slot.active && !(Live(memory, slot.Backing()) && memory[slot.view.allocation].epoch == slot.epoch)
  }

  /** The first `count` slots swept: the stale ones retired, in index order. */
  function SweptUpTo(s: PoolState, memory: Allocations, count: nat): (r: PoolState)
    requires count <= |s.slots|
    ensures |r.slots| == |s.slots|
    ensures forall i | count <= i < |s.slots| :: r.slots[i] == s.slots[i]
  {
    if count == 0 then s
    else
      var before := SweptUpTo(s, memory, count - 1);
      if Stale(s.slots[count - 1], memory) then RetireSlot(before, count - 1) else before
  }

  function Swept(s: PoolState, memory: Allocations): PoolState {
    SweptUpTo(s, memory, |s.slots|)
  }

  function Begun(s: PoolState, memory: Allocations, ref: FacetRef): Option<PoolState> {
    if !Resolves(s, memory, ref) then None
    else
      var slot := s.slots[ref.index];
      Some(s.(slots := s.slots[ref.index := slot.(inFlightGeneration := ref.generation, inFlight := Bump32(slot.inFlight))]))
  }

  /** Matched against the generation the uses began under, which retirement leaves alone. */
  function Ended(s: PoolState, ref: FacetRef): Option<PoolState> {
    if ref.index >= |s.slots| then None
    else
      var slot := s.slots[ref.index];
      if slot.inFlight == 0 || slot.inFlightGeneration != ref.generation then None
      else
        Some(PoolState(s.slots[ref.index := slot.(inFlight := slot.inFlight - 1)],
                       if slot.inFlight == 1 && !slot.active then s.free + [ref.index] else s.free))
  }

  predicate References(s: PoolState, ref: RepresentationRef) {
    exists i :: 0 <= i < |s.slots| && NamesRepresentation(s.slots[i], ref)
  }

  predicate NamesRepresentation(slot: FacetSlot, ref: RepresentationRef) {
    && slot.view.allocation == ref.allocation && slot.view.allocationGeneration == ref.generation
    && slot.epoch == ref.epoch && (slot.active || slot.inFlight > 0)
  }

  // ------------------------------------------------------------ the invariant

  function Previous32(x: U32): U32 {
    if x == 0 then U32_MAX else x - 1
  }

  /** Outstanding uses began under the slot's generation, or under the one it had before it was retired. */
  predicate SlotValid(slot: FacetSlot) {
    slot.inFlight > 0 ==> slot.inFlightGeneration == if slot.active then slot.generation else Previous32(slot.generation)
  }

  /** The free list holds, without duplicates, exactly the inactive slots without outstanding uses. */
  ghost predicate PoolValid(s: PoolState) {
    && (forall i, j | 0 <= i < j < |s.free| :: s.free[i] != s.free[j])
    && (forall i: nat :: i in s.free <==> i < |s.slots| && !s.slots[i].active && s.slots[i].inFlight == 0)
    && (forall i | 0 <= i < |s.slots| :: SlotValid(s.slots[i]))
  }

  lemma IssuedValid(s: PoolState, memory: Allocations, view: CanonicalView, kind: FacetKind)
    requires PoolValid(s)
    ensures var r := Issued(s, memory, view, kind);
            r.Some? ==> PoolValid(r.value.0) && Resolves(r.value.0, memory, r.value.1)
  {
    var r := Issued(s, memory, view, kind);
    if r.Some? {
      if s.free != [] {
        IssuedFromFreeList(s, memory, view, kind);
      } else {
        IssuedAtEnd(s, memory, view, kind);
      }
    }
  }

  lemma IssuedAtEnd(s: PoolState, memory: Allocations, view: CanonicalView, kind: FacetKind)
    requires PoolValid(s) && s.free == [] && Issued(s, memory, view, kind).Some?
    ensures PoolValid(Issued(s, memory, view, kind).value.0)
  {}

  lemma IssuedFromFreeList(s: PoolState, memory: Allocations, view: CanonicalView, kind: FacetKind)
    requires PoolValid(s) && s.free != [] && Issued(s, memory, view, kind).Some?
    ensures PoolValid(Issued(s, memory, view, kind).value.0)
  {
    var last := |s.free| - 1;
    var rest, index := s.free[..last], s.free[last];
    var after := Issued(s, memory, view, kind).value.0;
    assert s.free == rest + [index];
    assert index in s.free && index !in rest;
    forall i: nat ensures i in rest <==> i < |after.slots| && !after.slots[i].active && after.slots[i].inFlight == 0 {
      assert i in s.free <==> i in rest || i == index;
      if i != index && i < |s.slots| {
        assert after.slots[i] == s.slots[i];
      }
    }
  }

  lemma RetireSlotValid(s: PoolState, index: nat)
    requires PoolValid(s) && index < |s.slots| && s.slots[index].active
    ensures PoolValid(RetireSlot(s, index))
  {
    var r := RetireSlot(s, index);
    assert Previous32(Bump32(s.slots[index].generation)) == s.slots[index].generation;
    assert index !in s.free;
    forall i: nat ensures i in r.free <==> i < |r.slots| && !r.slots[i].active && r.slots[i].inFlight == 0 {
      assert i in s.free + [index] <==> i in s.free || i == index;
    }
  }

  lemma {:induction false} SweptValid(s: PoolState, memory: Allocations, count: nat)
    requires PoolValid(s) && count <= |s.slots|
    ensures PoolValid(SweptUpTo(s, memory, count))
  {
    if count > 0 {
      SweptValid(s, memory, count - 1);
      if Stale(s.slots[count - 1], memory) {
        RetireSlotValid(SweptUpTo(s, memory, count - 1), count - 1);
      }
    }
  }

  /** A sweep retires exactly the stale slots and leaves the others alone. */
  lemma {:induction false} SweptMeaning(s: PoolState, memory: Allocations, count: nat)
    requires count <= |s.slots|
    ensures forall i | 0 <= i < |s.slots| ::
              SweptUpTo(s, memory, count).slots[i] ==
              if i < count && Stale(s.slots[i], memory)
              then s.slots[i].(active := false, generation := Bump32(s.slots[i].generation)) else s.slots[i]
  {
    if count > 0 {
      SweptMeaning(s, memory, count - 1);
    }
  }

  lemma BegunValid(s: PoolState, memory: Allocations, ref: FacetRef)
    requires PoolValid(s)
    ensures var r := Begun(s, memory, ref);
            r.Some? ==> PoolValid(r.value)
  {
    var r := Begun(s, memory, ref);
    if r.Some? {
      forall i: nat ensures i in r.value.free <==> i < |s.slots| && !r.value.slots[i].active && r.value.slots[i].inFlight == 0 {
        assert i in s.free <==> i < |s.slots| && !s.slots[i].active && s.slots[i].inFlight == 0;
      }
    }
  }

  lemma EndedValid(s: PoolState, ref: FacetRef)
    requires PoolValid(s)
    ensures var r := Ended(s, ref);
            r.Some? ==> PoolValid(r.value)
  {
    var r := Ended(s, ref);
    if r.Some? {
      forall i: nat ensures i in r.value.free <==> i < |s.slots| && !r.value.slots[i].active && r.value.slots[i].inFlight == 0 {
        assert i in s.free <==> i < |s.slots| && !s.slots[i].active && s.slots[i].inFlight == 0;
        assert i in s.free + [ref.index] <==> i in s.free || i == ref.index;
      }
    }
  }

  function CountStale(slots: seq<FacetSlot>, memory: Allocations): nat {
    if slots == [] then 0 else
    CountStale(slots[..|slots| - 1], memory) + if Stale(slots[|slots| - 1], memory) then 1 else 0
  }

  /** Slots in use keep their counts and the generation their uses began under. */
  ghost predicate UsesKept(before: seq<FacetSlot>, after: seq<FacetSlot>) {
    && |before| <= |after|
    && (forall i | 0 <= i < |before| :: after[i].inFlight == before[i].inFlight
          && (before[i].inFlight > 0 ==> after[i].inFlightGeneration == before[i].inFlightGeneration))
    && (forall i | |before| <= i < |after| :: after[i].inFlight == 0)
  }

  lemma UsesKeptTwice(first: seq<FacetSlot>, second: seq<FacetSlot>, third: seq<FacetSlot>)
    requires UsesKept(first, second) && UsesKept(second, third)
    ensures UsesKept(first, third)
  {}

  lemma SweepKeepsUses(s: PoolState, memory: Allocations)
    ensures UsesKept(s.slots, Swept(s, memory).slots)
  {
    SweptMeaning(s, memory, |s.slots|);
  }

  lemma IssueKeepsUses(s: PoolState, memory: Allocations, view: CanonicalView, kind: FacetKind)
    requires PoolValid(s) && Issued(s, memory, view, kind).Some?
    ensures UsesKept(s.slots, Issued(s, memory, view, kind).value.0.slots)
  {
    if s.free != [] {
      assert s.free[|s.free| - 1] in s.free;
    }
  }

  // ------------------------------------------------------------ the pool in place

  class FacetPool {
    var slots: seq<FacetSlot>
    var free: seq<nat>

    constructor ()
      ensures State() == PoolState([], []) && PoolValid(State())
    {
      slots, free := [], [];
    }

    function State(): PoolState
      reads this
    {
      PoolState(slots, free)
    }

    method ValidateTarget(arena: Arena, view: CanonicalView, kind: FacetKind) returns (ok: bool)
      ensures ok <==> TargetValid(arena.allocations, view, kind)
      ensures ok ==>
                && view.allocation in arena.allocations && arena.allocations[view.allocation].state.Active?
                && arena.allocations[view.allocation].generation == view.allocationGeneration
                && view.ByteSize() % TWO64 <= arena.allocations[view.allocation].size
                && (view.format.Depth32Float? ==> kind.Attachment?)
                && (view.format.R16Uint? || view.format.R32Uint? ==> kind.Address?)
      ensures !ok ==>
                || !view.Valid() || !Live(arena.allocations, PointerRef(view.allocation, view.allocationGeneration))
                || view.ByteSize() % TWO64 > arena.allocations[view.allocation].size
                || (view.format.Depth32Float? && !kind.Attachment?)
                || ((view.format.R16Uint? || view.format.R32Uint?) && !kind.Address?)
    {
      var valid := CheckValid(view);
      if !valid {
        return false;
      }
      if view.format.Depth32Float? && !kind.Attachment? {
        return false;
      }
      if (view.format.R16Uint? || view.format.R32Uint?) && !kind.Address? {
        return false;
      }
      if !Live(arena.allocations, PointerRef(view.allocation, view.allocationGeneration)) {
        return false;
      }
      WrapIsRemainder(view.ByteSize());
      var size := ByteSize64(view);
      ok := size <= arena.allocations[view.allocation].size;
    }

    method Acquire(arena: Arena, view: CanonicalView, kind: FacetKind) returns (ref: Option<FacetRef>)
      requires PoolValid(State())
      modifies this
      ensures PoolValid(State())
      ensures var r := Issued(old(State()), arena.allocations, view, kind);
              if r.Some? then ref == Some(r.value.1) && State() == r.value.0 else ref == None && State() == old(State())
      ensures ref.Some? ==>
                && (if old(free) == [] then ref == Some(FacetRef(|old(slots)|, 1)) && free == []
                    else
                      var last := old(free)[|old(free)| - 1];
                      last < |old(slots)| && ref == Some(FacetRef(last, old(slots)[last].generation)) && old(free) == free + [last])
                && ref.value.index < |slots|
                && slots[ref.value.index] ==
                   FacetSlot(ref.value.generation, true, kind, view, arena.allocations[view.allocation].epoch, 0, 0)
    {
      IssuedValid(State(), arena.allocations, view, kind);
      var ok := ValidateTarget(arena, view, kind);
      if !ok {
        return None;
      }
      var slot := FacetSlot(1, true, kind, view, arena.allocations[view.allocation].epoch, 0, 0);
      if free != [] {
        var index := free[|free| - 1];
        assert index in free;
        free := free[..|free| - 1];
        slot := slot.(generation := slots[index].generation);
        slots := slots[index := slot];
        ref := Some(FacetRef(index, slot.generation));
      } else {
        slots := slots + [slot];
        ref := Some(FacetRef(|slots| - 1, slot.generation));
      }
    }

    method Retire(ref: FacetRef) returns (ok: bool)
      requires PoolValid(State())
      modifies this
      ensures PoolValid(State())
      ensures var r := RetiredToken(old(State()), ref);
              ok == r.Some? && State() == if ok then r.value else old(State())
    {
      if ref.index >= |slots| || !slots[ref.index].active || slots[ref.index].generation != ref.generation {
        return false;
      }
      RetireAt(ref.index);
      ok := true;
    }

    method RetireAt(index: nat)
      requires PoolValid(State()) && index < |slots| && slots[index].active
      modifies this
      ensures PoolValid(State()) && State() == RetireSlot(old(State()), index)
    {
      RetireSlotValid(State(), index);
      var slot := slots[index];
      slots := slots[index := slot.(active := false, generation := Bump32(slot.generation))];
      if slot.inFlight == 0 {
        free := free + [index];
      }
    }

    method RetireStale(arena: Arena) returns (retired: nat)
      requires PoolValid(State())
      modifies this
      ensures PoolValid(State()) && State() == Swept(old(State()), arena.allocations)
      ensures retired == CountStale(old(slots), arena.allocations)
    {
      ghost var before := State();
      retired := 0;
      for index := 0 to |slots|
        invariant |slots| == |before.slots| && PoolValid(State())
        invariant State() == SweptUpTo(before, arena.allocations, index)
        invariant retired == CountStale(before.slots[..index], arena.allocations)
      {
        assert before.slots[..index + 1][..index] == before.slots[..index];
        if Stale(slots[index], arena.allocations) {
          RetireAt(index);
          retired := retired + 1;
        }
      }
      assert before.slots[..|slots|] == before.slots;
    }

    method BeginGpuUse(arena: Arena, ref: FacetRef) returns (ok: bool)
      requires PoolValid(State())
      modifies this
      ensures PoolValid(State())
      ensures var r := Begun(old(State()), arena.allocations, ref);
              ok == r.Some? && State() == if ok then r.value else old(State())
    {
      BegunValid(State(), arena.allocations, ref);
      if !Resolves(State(), arena.allocations, ref) {
        return false;
      }
      var slot := slots[ref.index];
      slots := slots[ref.index := slot.(inFlightGeneration := ref.generation, inFlight := Bump32(slot.inFlight))];
      ok := true;
    }

    method EndGpuUse(ref: FacetRef) returns (ok: bool)
      requires PoolValid(State())
      modifies this
      ensures PoolValid(State())
      ensures var r := Ended(old(State()), ref);
              ok == r.Some? && State() == if ok then r.value else old(State())
    {
      EndedValid(State(), ref);
      if ref.index >= |slots| {
        return false;
      }
      var slot := slots[ref.index];
      if slot.inFlight == 0 || slot.inFlightGeneration != ref.generation {
        return false;
      }
      slots := slots[ref.index := slot.(inFlight := slot.inFlight - 1)];
      if slot.inFlight == 1 && !slot.active {
        free := free + [ref.index];
      }
      ok := true;
    }
  }
}
