/** Allocations and the references that name them (src/core/arena.h, src/core/resource_types.h). */
module Arenas {
  import opened Ir

  datatype PointerRef = PointerRef(allocation: U64, generation: U32)

  datatype RepresentationRef = RepresentationRef(allocation: U64, generation: U32, epoch: U32)

  datatype ObjectState = Active | Retired

  datatype Allocation = Allocation(
    generation: U32, size: U64, state: ObjectState, epoch: U32, inFlight: U32, live: U32, bytes: seq<Byte>)
  {
    /** Everything but the stored bytes. */
    function Shape(): Allocation {
      this.(bytes := [])
    }
  }

  type Allocations = map<U64, Allocation>

  /** The backing of every live allocation is present in full. */
  ghost predicate Backed(memory: Allocations) {
    forall id | id in memory && memory[id].state.Active? :: |memory[id].bytes| == memory[id].size
  }

  predicate Live(memory: Allocations, ref: PointerRef) {
    && ref.allocation in memory
    && memory[ref.allocation].state.Active?
    && memory[ref.allocation].generation == ref.generation
  }

  /** Neither half of the reference is zero, and it names a live allocation. */
  predicate NamesActive(memory: Allocations, r: PointerRef) {
    r.allocation != 0 && r.generation != 0 && Live(memory, r)
  }

  predicate LiveRepresentation(memory: Allocations, ref: RepresentationRef) {
    && Live(memory, PointerRef(ref.allocation, ref.generation))
    && memory[ref.allocation].epoch == ref.epoch
  }

  /** Same allocations with the same metadata; only bytes may differ. */
  ghost predicate SameShape(a: Allocations, b: Allocations) {
    && a.Keys == b.Keys
    && (forall id | id in a :: a[id].Shape() == b[id].Shape() && |a[id].bytes| == |b[id].bytes|)
  }

  ghost predicate DistinctRefs(refs: seq<PointerRef>) {
    forall i, j | 0 <= i < j < |refs| :: refs[i] != refs[j]
  }

  /** No allocation in use is changed in generation or state, and no count changes. */
  ghost predicate CountsKept(before: Allocations, after: Allocations) {
    && (forall id | id in before ::
          && id in after && after[id].inFlight == before[id].inFlight
          && (before[id].inFlight > 0 ==> after[id].generation == before[id].generation && after[id].state == before[id].state))
    && (forall id | id in after && id !in before :: after[id].inFlight == 0)
  }

  lemma CountsKeptTwice(first: Allocations, second: Allocations, third: Allocations)
    requires CountsKept(first, second) && CountsKept(second, third)
    ensures CountsKept(first, third)
  {}
}
