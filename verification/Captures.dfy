/** A capture keeps what discovery reached, and replay discovers it again (src/capture/capture.cpp,
    `make_capture`, `attach_discovery` and the rediscovery check of `replay`). */
module Captures {
  import opened Ir
  import opened Arenas
  import opened ArenaStore
  import opened Wrappers
  import opened Interpreter
  import opened Discovery

  datatype Snapshot = Snapshot(id: U64, generation: U32, size: U64, epoch: U32, state: ObjectState, bytes: seq<Byte>) {
    function Ref(): PointerRef {
      PointerRef(id, generation)
    }
  }

  datatype Capture = Capture(snapshots: seq<Snapshot>, seeds: seq<PointerRef>, reachable: seq<PointerRef>)

  predicate SnapshotOf(memory: Allocations, s: Snapshot) {
    && s.id in memory
    && var a := memory[s.id];
       s == Snapshot(s.id, a.generation, a.size, a.epoch, a.state, a.bytes)
  }

  ghost predicate DistinctIds(snapshots: seq<Snapshot>) {
    forall i, j | 0 <= i < j < |snapshots| :: snapshots[i].id != snapshots[j].id
  }

  /** One faithful snapshot per allocation. */
  ghost predicate Complete(memory: Allocations, snapshots: seq<Snapshot>) {
    && DistinctIds(snapshots)
    && (forall s | s in snapshots :: SnapshotOf(memory, s))
    && (forall id | id in memory :: exists s | s in snapshots :: s.id == id)
  }

  /** The snapshots of exactly the reached allocations. */
  ghost predicate KeepsReached(memory: Allocations, c: Capture) {
    && DistinctIds(c.snapshots)
    && (forall s | s in c.snapshots :: SnapshotOf(memory, s) && s.Ref() in c.reachable)
    && (forall r | r in c.reachable :: exists s | s in c.snapshots :: s.Ref() == r)
  }

  /** What `attach_discovery` leaves in a capture. */
  ghost predicate Attached(memory: Allocations, c: Capture) {
    && DistinctRefs(c.reachable)
    && (forall seed | seed in c.seeds :: NamesActive(memory, seed))
    && (forall x :: x in c.reachable <==> Reachable(memory, c.seeds, x))
    && (forall x | x in c.reachable :: NamesActive(memory, x))
    && KeepsReached(memory, c)
  }

  // ------------------------------------------------------------ capturing

  /** Snapshots of the whole arena, in whatever order its table lists the allocations. */
  method MakeCapture(arena: Arena) returns (snapshots: seq<Snapshot>)
    ensures Complete(arena.allocations, snapshots)
  {
    snapshots := [];
    var rest := arena.allocations.Keys;
    while rest != {}
      invariant rest <= arena.allocations.Keys
      invariant DistinctIds(snapshots)
      invariant forall s | s in snapshots :: SnapshotOf(arena.allocations, s) && s.id !in rest
      invariant forall id | id in arena.allocations && id !in rest :: exists s | s in snapshots :: s.id == id
      decreases |rest|
    {
      var id :| id in rest;
      var a := arena.allocations[id];
      var snapshot := Snapshot(id, a.generation, a.size, a.epoch, a.state, a.bytes);
      ghost var before := snapshots;
      snapshots := snapshots + [snapshot];
      rest := rest - {id};
      assert snapshot in snapshots;
      forall x | x in arena.allocations && x !in rest ensures exists s | s in snapshots :: s.id == x {
        if x != id {
          var s :| s in before && s.id == x;
          assert s in snapshots;
        }
      }
    }
  }

  /** Discovers from the seeds and drops every snapshot that was not reached. */
  method AttachDiscovery(snapshots: seq<Snapshot>, arena: Arena, seeds: seq<PointerRef>) returns (c: Option<Capture>)
    requires Complete(arena.allocations, snapshots)
    ensures c.Some? <==> forall seed | seed in seeds :: NamesActive(arena.allocations, seed)
    ensures c.Some? ==> c.value.seeds == seeds && Attached(arena.allocations, c.value)
  {
    var discovery := DiscoverReachable(arena, seeds);
    if discovery.None? {
      return None;
    }
    var reachable := discovery.value.reachable;
    var kept: seq<Snapshot> := [];
    for k := 0 to |snapshots|
      invariant DistinctIds(kept)
      invariant forall s | s in kept :: s in snapshots[..k] && s.Ref() in reachable
      invariant forall s | s in snapshots[..k] && s.Ref() in reachable :: s in kept
    {
      assert snapshots[..k + 1] == snapshots[..k] + [snapshots[k]];
      if snapshots[k].Ref() in reachable {
        FreshId(snapshots, k, kept);
        kept := kept + [snapshots[k]];
      }
    }
    assert snapshots[..|snapshots|] == snapshots;
    forall r | r in reachable ensures exists s | s in kept :: s.Ref() == r {
      var s :| s in snapshots && s.id == r.allocation;
      assert s.Ref() == r;
    }
    c := Some(Capture(kept, seeds, reachable));
  }

  lemma FreshId(snapshots: seq<Snapshot>, k: nat, kept: seq<Snapshot>)
    requires DistinctIds(snapshots) && k < |snapshots| && forall s | s in kept :: s in snapshots[..k]
    ensures forall i | 0 <= i < |kept| :: kept[i].id != snapshots[k].id
  {
    forall i | 0 <= i < |kept| ensures kept[i].id != snapshots[k].id {
      assert kept[i] in kept;
      var j :| 0 <= j < k && snapshots[..k][j] == kept[i];
      assert snapshots[j].id != snapshots[k].id;
    }
  }

  // ------------------------------------------------------------ rediscovery

  /** The restored memory: the captured allocations, with no uses in flight. */
  ghost predicate Restored(c: Capture, memory: Allocations) {
    && (forall s | s in c.snapshots ::
          s.id in memory && memory[s.id] == Allocation(s.generation, s.size, s.state, s.epoch, 0, 1, s.bytes))
    && (forall id | id in memory :: exists s | s in c.snapshots :: s.id == id)
  }

  /** An allocation of the original memory and its restored copy hold the same bytes. */
  lemma RestoredSame(c: Capture, memory: Allocations, restored: Allocations, r: PointerRef)
    requires Attached(memory, c) && Restored(c, restored)
    ensures Live(restored, r) <==> r in c.reachable
    ensures r in c.reachable ==> Live(memory, r) && restored[r.allocation].bytes == memory[r.allocation].bytes
  {
    if r in c.reachable {
      var s :| s in c.snapshots && s.Ref() == r;
      assert NamesActive(memory, r) && SnapshotOf(memory, s);
    }
    if Live(restored, r) {
      var s :| s in c.snapshots && s.id == r.allocation;
      assert s.Ref() == r;
    }
  }

  lemma PointsToSame(c: Capture, memory: Allocations, restored: Allocations, from: PointerRef, to: PointerRef)
    requires Attached(memory, c) && Restored(c, restored)
    ensures PointsTo(restored, from, to) <==> from in c.reachable && PointsTo(memory, from, to)
  {
    RestoredSame(c, memory, restored, from);
    RestoredSame(c, memory, restored, to);
    if from in c.reachable && PointsTo(memory, from, to) {
      ReachableStep(memory, c.seeds, from, to);
    }
  }

  lemma SeedsFollowed(c: Capture, memory: Allocations, restored: Allocations)
    requires Attached(memory, c) && Restored(c, restored)
    ensures forall seed | seed in c.seeds :: NamesActive(restored, seed) && seed in c.reachable
  {
    forall seed | seed in c.seeds ensures NamesActive(restored, seed) && seed in c.reachable {
      assert Reachable(memory, c.seeds, seed);
      RestoredSame(c, memory, restored, seed);
    }
  }

  /** The restored memory reaches exactly what the original did. */
  lemma RediscoveryAgrees(c: Capture, memory: Allocations, restored: Allocations, x: PointerRef)
    requires Attached(memory, c) && Restored(c, restored)
    ensures Reachable(restored, c.seeds, x) <==> Reachable(memory, c.seeds, x)
  {
    SeedsFollowed(c, memory, restored);
    forall from, to ensures PointsTo(restored, from, to) <==> from in c.reachable && PointsTo(memory, from, to) {
      PointsToSame(c, memory, restored, from, to);
    }
    if Reachable(restored, c.seeds, x) {
      var s := iset r | Reachable(memory, c.seeds, r);
      forall from, to | from in s && PointsTo(restored, from, to) ensures to in s {
        ReachableStep(memory, c.seeds, from, to);
      }
      assert ClosedUnder(restored, s);
    }
    if Reachable(memory, c.seeds, x) {
      var s := iset r | Reachable(restored, c.seeds, r) && r in c.reachable;
      forall from, to | from in s && PointsTo(memory, from, to) ensures to in s {
        ReachableStep(restored, c.seeds, from, to);
        ReachableStep(memory, c.seeds, from, to);
      }
      assert ClosedUnder(memory, s);
    }
  }

  /** A snapshot that replay can bring back: nothing of it has been consumed, and it is not empty. */
  predicate Restorable(s: Snapshot) {
    s.id != 0 && s.generation != 0 && s.size != 0 && |s.bytes| == s.size
  }

  predicate NamedAsConsumed(s: Snapshot) {
    s.state.Active? && s.size > 0 && s.bytes == []
  }

  method RestoreAll(c: Capture, arena: Arena) returns (ok: bool)
    requires DistinctIds(c.snapshots) && arena.allocations == map[]
    modifies arena
    ensures ok <==> forall s | s in c.snapshots :: Restorable(s)
    ensures ok ==> Restored(c, arena.allocations)
  {
    for k := 0 to |c.snapshots|
      invariant forall s | s in c.snapshots[..k] :: !NamedAsConsumed(s)
    {
      assert c.snapshots[..k + 1] == c.snapshots[..k] + [c.snapshots[k]];
      if NamedAsConsumed(c.snapshots[k]) {
        assert !Restorable(c.snapshots[k]) && c.snapshots[k] in c.snapshots;
        return false;
      }
    }
    for k := 0 to |c.snapshots|
      invariant forall s | s in c.snapshots[..k] :: Restorable(s)
      invariant Restored(c.(snapshots := c.snapshots[..k]), arena.allocations)
    {
      var s := c.snapshots[k];
      assert c.snapshots[..k + 1] == c.snapshots[..k] + [s];
      NotYetRestored(c, k, arena.allocations);
      var imported := arena.Import(RepresentationRef(s.id, s.generation, s.epoch), s.size, s.state, s.bytes);
      if !imported {
        assert s in c.snapshots;
        return false;
      }
    }
    assert c.snapshots[..|c.snapshots|] == c.snapshots;
    ok := true;
  }

  lemma NotYetRestored(c: Capture, k: nat, memory: Allocations)
    requires DistinctIds(c.snapshots) && k < |c.snapshots| && Restored(c.(snapshots := c.snapshots[..k]), memory)
    ensures c.snapshots[k].id !in memory
  {
    FreshId(c.snapshots, k, c.snapshots[..k]);
    forall s | s in c.snapshots[..k] ensures s.id != c.snapshots[k].id {
      var j :| 0 <= j < k && c.snapshots[..k][j] == s;
    }
  }

  /** Restores a capture into an empty arena, discovers again and compares. */
  method ReplayDiscovery(c: Capture, arena: Arena) returns (ok: bool)
    requires DistinctIds(c.snapshots) && arena.allocations == map[]
    modifies arena
    ensures ok ==> Restored(c, arena.allocations) && forall x | x in c.reachable :: Reachable(arena.allocations, c.seeds, x)
    ensures forall memory | Attached(memory, c) :: ok <==> forall s | s in c.snapshots :: Restorable(s)
  {
    var restored := RestoreAll(c, arena);
    if !restored {
      return false;
    }
    ghost var now := arena.allocations;
    var discovery := DiscoverReachable(arena, c.seeds);
    forall memory | Attached(memory, c)
      ensures forall x :: Reachable(now, c.seeds, x) <==> Reachable(memory, c.seeds, x)
      ensures forall seed | seed in c.seeds :: NamesActive(now, seed)
    {
      SeedsFollowed(c, memory, now);
      forall x ensures Reachable(now, c.seeds, x) <==> Reachable(memory, c.seeds, x) {
        RediscoveryAgrees(c, memory, now, x);
      }
    }
    if discovery.None? {
      return false;
    }
    var again := discovery.value.reachable;
    SameSizeIfSame(again, c.reachable);
    ok := |again| == |c.reachable| && forall r | r in c.reachable :: r in again;
  }

  lemma SameSizeIfSame(a: seq<PointerRef>, b: seq<PointerRef>)
    requires DistinctRefs(a)
    ensures DistinctRefs(b) && (forall x :: x in a <==> x in b) ==> |a| == |b|
  {
    if DistinctRefs(b) && (forall x :: x in a <==> x in b) {
      ElementCount(a);
      ElementCount(b);
      assert (set x | x in a) == (set x | x in b);
    }
  }

  lemma {:induction false} ElementCount(a: seq<PointerRef>)
    requires DistinctRefs(a)
    ensures |set x | x in a| == |a|
  {
    if a != [] {
      var front, last := a[..|a| - 1], a[|a| - 1];
      ElementCount(front);
      assert a == front + [last] && last !in front;
      assert (set x | x in a) == (set x | x in front) + {last};
    } else {
      assert (set x | x in a) == {};
    }
  }

  /** Nothing reachable is empty or has had its bytes consumed. */
  ghost predicate Replayable(memory: Allocations, seeds: seq<PointerRef>) {
    forall r | Reachable(memory, seeds, r) ::
      Live(memory, r) && memory[r.allocation].size != 0 && |memory[r.allocation].bytes| == memory[r.allocation].size
  }

  /** Capture followed by replay: an untampered capture passes the rediscovery check exactly when nothing it reached
      is empty or has had its bytes consumed. */
  method CaptureAndReplay(arena: Arena, seeds: seq<PointerRef>, target: Arena) returns (captured: bool, replayed: bool)
    requires target.allocations == map[] && target != arena
    modifies target
    ensures captured <==> forall seed | seed in seeds :: NamesActive(arena.allocations, seed)
    ensures captured ==> (replayed <==> Replayable(arena.allocations, seeds))
  {
    var snapshots := MakeCapture(arena);
    var c := AttachDiscovery(snapshots, arena, seeds);
    if c.None? {
      return false, false;
    }
    captured := true;
    replayed := ReplayDiscovery(c.value, target);
    assert Attached(arena.allocations, c.value);
    RestorableExactly(arena.allocations, c.value);
  }

  lemma RestorableExactly(memory: Allocations, c: Capture)
    requires Attached(memory, c)
    ensures (forall s | s in c.snapshots :: Restorable(s)) <==> Replayable(memory, c.seeds)
  {
    forall r | r in c.reachable
      ensures exists s | s in c.snapshots :: s.Ref() == r && s.size == memory[r.allocation].size && s.bytes == memory[r.allocation].bytes
    {
      var s :| s in c.snapshots && s.Ref() == r;
      assert SnapshotOf(memory, s);
    }
    forall s | s in c.snapshots ensures SnapshotOf(memory, s) && s.Ref() in c.reachable && NamesActive(memory, s.Ref()) {}
  }

  // ------------------------------------------------------------ captures that cannot be replayed

  /** An empty allocation can be captured, in any arena with an identity left for it. */
  lemma EmptyNotReplayable(s: ArenaState)
    requires s.nextId != 0 && s.nextId !in s.allocations
    ensures var after, r := Allocated(s, 0).allocations, PointerRef(s.nextId, 1);
            NamesActive(after, r) && Reachable(after, [r], r) && !Replayable(after, [r])
  {}

  /** So can an allocation whose bytes have been consumed. */
  lemma ConsumedNotReplayable(s: ArenaState, ref: RepresentationRef, proof: ConsumeProof, seeds: seq<PointerRef>)
    requires RepresentationConsumed(s, ref, proof).Some? && s.allocations[ref.allocation].size != 0
    requires Reachable(RepresentationConsumed(s, ref, proof).value.allocations, seeds, PointerRef(ref.allocation, ref.generation))
    ensures !Replayable(RepresentationConsumed(s, ref, proof).value.allocations, seeds)
  {}

  const EVERY_PROOF := ConsumeProof(true, true, true, true)

  const NEW_ARENA := ArenaState(map[], 1, 0, 0, 0)

  /** Allocation 1 holds a packed reference to allocation 2, which holds one byte. */
  function Linked(): ArenaState {
    var first := Imported(NEW_ARENA, RepresentationRef(1, 1, 0), 12, Active, Packed(PointerRef(2, 1)));
    var second := Imported(first.value, RepresentationRef(2, 1, 0), 1, Active, [0]);
    second.value
  }

  /** A packed reference in the first slot is followed. */
  lemma LinkFollowed(memory: Allocations, from: PointerRef, to: PointerRef)
    requires Live(memory, from) && NamesActive(memory, to) && memory[from.allocation].bytes == Packed(to)
    ensures PointsTo(memory, from, to)
  {
    var packed := Packed(to);
    assert packed[0..12] == packed && HasAt(packed, 0, packed);
    PointsToExactly(memory, from, to);
  }

  /** From active seeds only active allocations are reached. */
  lemma ReachableIsActive(memory: Allocations, seeds: seq<PointerRef>, x: PointerRef)
    requires Reachable(memory, seeds, x) && forall seed | seed in seeds :: NamesActive(memory, seed)
    ensures NamesActive(memory, x)
  {
    var active := iset r | NamesActive(memory, r);
    assert ClosedUnder(memory, active);
  }

  lemma FullIsReplayable(memory: Allocations, seeds: seq<PointerRef>)
    requires forall seed | seed in seeds :: NamesActive(memory, seed)
    requires forall id | id in memory :: memory[id].size != 0 && |memory[id].bytes| == memory[id].size
    ensures Replayable(memory, seeds)
  {
    forall r | Reachable(memory, seeds, r) ensures Live(memory, r) {
      ReachableIsActive(memory, seeds, r);
    }
  }

  lemma LinkedState()
    ensures Linked().allocations ==
            map[1 := Allocation(1, 12, Active, 0, 0, 1, Packed(PointerRef(2, 1))), 2 := Allocation(1, 1, Active, 0, 0, 1, [0])]
  {}

  /** Captured from allocation 1, this arena can be replayed until the bytes of allocation 2 are consumed; then it can
      still be captured, but no longer replayed. */
  lemma ConsumedBehindReference()
    ensures var seeds, before := [PointerRef(1, 1)], Linked();
            var consumed := RepresentationConsumed(before, RepresentationRef(2, 1, 0), EVERY_PROOF);
            && Replayable(before.allocations, seeds) && consumed.Some?
            && NamesActive(consumed.value.allocations, seeds[0]) && !Replayable(consumed.value.allocations, seeds)
  {
    var from, to := PointerRef(1, 1), PointerRef(2, 1);
    LinkedState();
    var before := Linked();
    FullIsReplayable(before.allocations, [from]);
    var consumed := RepresentationConsumed(before, RepresentationRef(2, 1, 0), EVERY_PROOF);
    var after := consumed.value.allocations;
    LinkFollowed(after, from, to);
    assert Reachable(after, [from], from);
    ReachableStep(after, [from], from, to);
    ConsumedNotReplayable(before, RepresentationRef(2, 1, 0), EVERY_PROOF, [from]);
  }
}
