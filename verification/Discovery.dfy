/** Reachability over packed references in memory (src/core/access.cpp, `discover_reachable`). */
module Discovery {
  import opened Ir
  import opened Arenas
  import opened ArenaStore
  import opened Bytes
  import opened Wrappers
  import opened Interpreter
  import opened Collections

  datatype DiscoveryResult = DiscoveryResult(reachable: seq<PointerRef>, scannedBytes: nat, resultBytes: nat)

  // ------------------------------------------------------------ the least closed set

  /** The reference in the `k`-th 12-byte slot. */
  function SlotRef(bytes: seq<Byte>, k: nat): PointerRef
    requires POINTER_REF_BYTES * k + POINTER_REF_BYTES <= |bytes|
  {
    DecodeRef(bytes[POINTER_REF_BYTES * k..POINTER_REF_BYTES * k + POINTER_REF_BYTES])
  }

  predicate Stores(bytes: seq<Byte>, k: nat, r: PointerRef) {
    POINTER_REF_BYTES * k + POINTER_REF_BYTES <= |bytes| && SlotRef(bytes, k) == r
  }

  /** `from` stores a reference to `to` in one of its slots. */
  ghost predicate PointsTo(memory: Allocations, from: PointerRef, to: PointerRef) {
    Live(memory, from) && NamesActive(memory, to) && exists k: nat :: Stores(memory[from.allocation].bytes, k, to)
  }

  /** One allocation points to another exactly where the packed reference stands in one of its slots. */
  lemma PointsToExactly(memory: Allocations, from: PointerRef, to: PointerRef)
    ensures PointsTo(memory, from, to) <==>
              && Live(memory, from) && NamesActive(memory, to)
              && exists k: nat :: HasAt(memory[from.allocation].bytes, k, Packed(to))
  {
    if Live(memory, from) {
      var bytes := memory[from.allocation].bytes;
      forall k: nat ensures Stores(bytes, k, to) <==> HasAt(bytes, k, Packed(to)) {
        if POINTER_REF_BYTES * k + POINTER_REF_BYTES <= |bytes| {
          PackedExactly(bytes[POINTER_REF_BYTES * k..POINTER_REF_BYTES * k + POINTER_REF_BYTES], to);
        }
      }
    }
  }

  /** The `k`-th slot holds the given bytes. */
  predicate HasAt(bytes: seq<Byte>, k: nat, slot: seq<Byte>) {
    && POINTER_REF_BYTES * k + POINTER_REF_BYTES <= |bytes|
    && bytes[POINTER_REF_BYTES * k..POINTER_REF_BYTES * k + POINTER_REF_BYTES] == slot
  }

  ghost predicate ClosedUnder(memory: Allocations, s: iset<PointerRef>) {
    forall from, to | from in s && PointsTo(memory, from, to) :: to in s
  }

  /** In every closed set that contains the seeds. */
  ghost predicate Reachable(memory: Allocations, seeds: seq<PointerRef>, r: PointerRef) {
    forall s: iset<PointerRef> | (forall seed | seed in seeds :: seed in s) && ClosedUnder(memory, s) :: r in s
  }

  lemma ReachableStep(memory: Allocations, seeds: seq<PointerRef>, from: PointerRef, to: PointerRef)
    requires Reachable(memory, seeds, from) && PointsTo(memory, from, to)
    ensures Reachable(memory, seeds, to)
  {
    forall s: iset<PointerRef> | (forall seed | seed in seeds :: seed in s) && ClosedUnder(memory, s) ensures to in s {
      assert from in s;
    }
  }

  function TotalSize(memory: Allocations, refs: seq<PointerRef>): nat
    requires forall r | r in refs :: Live(memory, r)
  {
    if refs == [] then 0
    else
      var last := refs[|refs| - 1];
      assert last in refs && Live(memory, last);
      assert forall r | r in refs[..|refs| - 1] :: r in refs;
      TotalSize(memory, refs[..|refs| - 1]) + memory[last.allocation].size
  }

  // ------------------------------------------------------------ the worklist

  /** Everything found is reachable, and what is not waiting has been expanded. */
  ghost predicate Searching(
    memory: Allocations, seeds: seq<PointerRef>, found: seq<PointerRef>, waiting: seq<PointerRef>)
  {
    && Consistent(memory, seeds, found, waiting)
    && forall r | r in found && r !in waiting :: Expanded(memory, found, r)
  }

  ghost predicate Consistent(
    memory: Allocations, seeds: seq<PointerRef>, found: seq<PointerRef>, waiting: seq<PointerRef>)
  {
    && DistinctRefs(found) && DistinctRefs(waiting)
    && (forall r | r in waiting :: r in found)
    && (forall r | r in found :: NamesActive(memory, r) && Reachable(memory, seeds, r))
  }

  ghost predicate Expanded(memory: Allocations, found: seq<PointerRef>, r: PointerRef) {
    forall to | PointsTo(memory, r, to) :: to in found
  }

  /** Live references differ in their ids. */
  lemma FoundBound(memory: Allocations, found: seq<PointerRef>)
    requires DistinctRefs(found) && forall r | r in found :: Live(memory, r)
    ensures |found| <= |memory|
  {
    var ids := Ids(found);
    IdsDistinct(memory, found);
    SubsetSize(ids, memory.Keys);
    assert |memory.Keys| == |memory|;
  }

  function Ids(refs: seq<PointerRef>): set<U64> {
    set r | r in refs :: r.allocation
  }

  lemma NewId(memory: Allocations, front: seq<PointerRef>, last: PointerRef)
    requires last !in front && Live(memory, last) && forall r | r in front :: Live(memory, r)
    ensures last.allocation !in Ids(front) && Ids(front + [last]) == Ids(front) + {last.allocation}
  {
    forall r | r in front ensures r.allocation != last.allocation {
      assert Live(memory, r) && r != last;
    }
    assert forall r :: r in front + [last] <==> r in front || r == last;
  }

  lemma {:induction false} IdsDistinct(memory: Allocations, found: seq<PointerRef>)
    requires DistinctRefs(found) && forall r | r in found :: Live(memory, r)
    ensures |Ids(found)| == |found|
  {
    if found != [] {
      var front, last := found[..|found| - 1], found[|found| - 1];
      assert found == front + [last];
      IdsDistinct(memory, front);
      NewId(memory, front, last);
    }
  }

  lemma AppendRef(memory: Allocations, refs: seq<PointerRef>, r: PointerRef)
    requires (forall x | x in refs :: Live(memory, x)) && Live(memory, r)
    ensures TotalSize(memory, refs + [r]) == TotalSize(memory, refs) + memory[r.allocation].size
  {
    assert (refs + [r])[..|refs|] == refs;
  }

  /** A newly found reference joins both lists. */
  lemma AddFound(memory: Allocations, seeds: seq<PointerRef>, found: seq<PointerRef>, waiting: seq<PointerRef>, r: PointerRef)
    requires Consistent(memory, seeds, found, waiting) && r !in found && NamesActive(memory, r) && Reachable(memory, seeds, r)
    ensures Consistent(memory, seeds, found + [r], waiting + [r])
    ensures TotalSize(memory, found + [r]) == TotalSize(memory, found) + memory[r.allocation].size
    ensures TotalSize(memory, waiting + [r]) == TotalSize(memory, waiting) + memory[r.allocation].size
    ensures forall x | Expanded(memory, found, x) :: Expanded(memory, found + [r], x)
  {
    AppendRef(memory, found, r);
    AppendRef(memory, waiting, r);
  }

  method AdmitSeeds(arena: Arena, seeds: seq<PointerRef>) returns (found: Option<seq<PointerRef>>)
    ensures found.Some? <==> forall seed | seed in seeds :: NamesActive(arena.allocations, seed)
    ensures found.Some? ==>
              && Consistent(arena.allocations, seeds, found.value, found.value)
              && (forall seed | seed in seeds :: seed in found.value)
  {
    var list: seq<PointerRef> := [];
    for k := 0 to |seeds|
      invariant forall j | 0 <= j < k :: NamesActive(arena.allocations, seeds[j]) && seeds[j] in list
      invariant Consistent(arena.allocations, seeds, list, list)
    {
      var seed := seeds[k];
      if seed.allocation == 0 || seed.generation == 0 || !Live(arena.allocations, seed) {
        assert seed in seeds;
        return None;
      }
      if seed !in list {
        assert Reachable(arena.allocations, seeds, seed);
        AddFound(arena.allocations, seeds, list, list, seed);
        list := list + [seed];
      }
    }
    found := Some(list);
  }

  /** The lists have only grown, by the same references, and `current` is not waiting. */
  ghost predicate Grown(
    memory: Allocations, seeds: seq<PointerRef>, current: PointerRef, found: seq<PointerRef>, waiting: seq<PointerRef>,
    found': seq<PointerRef>, waiting': seq<PointerRef>)
  {
    && Consistent(memory, seeds, found, waiting) && Consistent(memory, seeds, found', waiting')
    && current in found' && current !in waiting'
    && found <= found' && (forall r | r in waiting :: r in waiting')
    && (forall r | r in found' && r !in found :: r in waiting')
    && (forall r | r in found && r !in waiting :: r !in waiting')
    && TotalSize(memory, found') - TotalSize(memory, found) == TotalSize(memory, waiting') - TotalSize(memory, waiting)
    && (|found'| == |found| ==> waiting' == waiting)
  }

  lemma GrowsBy(
    memory: Allocations, seeds: seq<PointerRef>, current: PointerRef, found: seq<PointerRef>, waiting: seq<PointerRef>,
    found': seq<PointerRef>, waiting': seq<PointerRef>, child: PointerRef)
    requires Grown(memory, seeds, current, found, waiting, found', waiting')
    requires child !in found' && PointsTo(memory, current, child)
    ensures Grown(memory, seeds, current, found, waiting, found' + [child], waiting' + [child])
  {
    ReachableStep(memory, seeds, current, child);
    AddFound(memory, seeds, found', waiting', child);
  }

  /** The live references of the first `k` slots have been found. */
  ghost predicate SlotsDone(memory: Allocations, bytes: seq<Byte>, k: nat, found: seq<PointerRef>) {
    forall j: nat, to | j < k && Stores(bytes, j, to) && NamesActive(memory, to) :: to in found
  }

  /** Scans one allocation's slots for references not yet found. */
  method ScanSlots(arena: Arena, ghost seeds: seq<PointerRef>, current: PointerRef, found: seq<PointerRef>, waiting: seq<PointerRef>)
    returns (found': seq<PointerRef>, waiting': seq<PointerRef>)
    requires Consistent(arena.allocations, seeds, found, waiting) && current in found && current !in waiting
    ensures Grown(arena.allocations, seeds, current, found, waiting, found', waiting')
    ensures Expanded(arena.allocations, found', current)
  {
    var memory := arena.allocations;
    var bytes := memory[current.allocation].bytes;
    found', waiting' := found, waiting;
    var k := 0;
    while POINTER_REF_BYTES * k + POINTER_REF_BYTES <= |bytes|
      invariant POINTER_REF_BYTES * k <= |bytes|
      invariant Grown(memory, seeds, current, found, waiting, found', waiting')
      invariant SlotsDone(memory, bytes, k, found')
      decreases |bytes| - POINTER_REF_BYTES * k
    {
      var child := SlotRef(bytes, k);
      assert Stores(bytes, k, child);
      if child.allocation != 0 && child.generation != 0 && Live(memory, child) && child !in found' {
        assert PointsTo(memory, current, child);
        GrowsBy(memory, seeds, current, found, waiting, found', waiting', child);
        found', waiting' := found' + [child], waiting' + [child];
      }
      k := k + 1;
    }
  }

  lemma SearchDone(memory: Allocations, seeds: seq<PointerRef>, found: seq<PointerRef>)
    requires Searching(memory, seeds, found, []) && forall seed | seed in seeds :: seed in found
    ensures forall r :: r in found <==> Reachable(memory, seeds, r)
  {
    var s := iset r | r in found;
    forall from, to | from in s && PointsTo(memory, from, to) ensures to in s {
      assert Expanded(memory, found, from);
    }
    assert ClosedUnder(memory, s);
  }

  /** Finds exactly the least set that contains the seeds and is closed under stored references, each reference
      once, whatever cycles there are; fails exactly when some seed is malformed or not live.  The bytes scanned are
      those of the result. */
  method DiscoverReachable(arena: Arena, seeds: seq<PointerRef>) returns (r: Option<DiscoveryResult>)
    ensures r.Some? <==> forall seed | seed in seeds :: NamesActive(arena.allocations, seed)
    ensures r.Some? ==>
              && DistinctRefs(r.value.reachable)
              && (forall x :: x in r.value.reachable <==> Reachable(arena.allocations, seeds, x))
              && (forall x | x in r.value.reachable :: NamesActive(arena.allocations, x))
              && r.value.scannedBytes == r.value.resultBytes == TotalSize(arena.allocations, r.value.reachable)
  {
    var admitted := AdmitSeeds(arena, seeds);
    if admitted.None? {
      return None;
    }
    var memory := arena.allocations;
    var found, waiting, scanned := admitted.value, admitted.value, 0;
    while waiting != []
      invariant Searching(memory, seeds, found, waiting)
      invariant forall seed | seed in seeds :: seed in found
      invariant scanned + TotalSize(memory, waiting) == TotalSize(memory, found)
      decreases |memory| - |found|, |waiting|
    {
      var last := |waiting| - 1;
      var current, rest := waiting[last], waiting[..last];
      assert waiting == rest + [current];
      assert current in waiting && current !in rest;
      scanned := scanned + memory[current.allocation].size;
      ghost var before := found;
      FoundBound(memory, found);
      found, waiting := ScanSlots(arena, seeds, current, found, rest);
      FoundBound(memory, found);
      forall x | x in found && x !in waiting ensures Expanded(memory, found, x) {
        if x != current {
          assert x in before && x !in rest;
          assert Expanded(memory, before, x);
        }
      }
    }
    SearchDone(memory, seeds, found);
    var total := SumSizes(arena, found);
    r := Some(DiscoveryResult(found, scanned, total));
  }

  method SumSizes(arena: Arena, refs: seq<PointerRef>) returns (total: nat)
    requires forall r | r in refs :: Live(arena.allocations, r)
    ensures total == TotalSize(arena.allocations, refs)
  {
    total := 0;
    for k := 0 to |refs|
      invariant forall r | r in refs[..k] :: Live(arena.allocations, r)
      invariant total == TotalSize(arena.allocations, refs[..k])
    {
      assert refs[k] in refs;
      assert refs[..k + 1] == refs[..k] + [refs[k]];
      AppendRef(arena.allocations, refs[..k], refs[k]);
      total := total + arena.allocations[refs[k].allocation].size;
    }
    assert refs[..|refs|] == refs;
  }
}
