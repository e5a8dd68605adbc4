/** The publication ring: slots claimed and handed over by compare-exchange (src/core/task_graph.cpp), called from one
    thread. */
module PublicationRings {
  import opened Ir
  import opened ArenaStore
  import opened Wrappers
  import opened CanonicalViews

  datatype Task = Task(node: U32, nodeGeneration: U32, rootGeneration: U32) {
    predicate WellFormed() {
      nodeGeneration != 0 && rootGeneration != 0
    }
  }

  datatype PublicationState = Empty | Writing | Published | Consumed

  datatype Slot = Slot(state: PublicationState, task: Task)

  const NO_TASK := Task(0, 0, 0)

  const TWO32: nat := 0x1_0000_0000

  /** The `i`-th slot a scan from `start` tries; the sum wraps. */
  function ScanIndex(start: U32, i: nat, count: nat): (k: nat)
    requires count > 0
    ensures k < count
  {
    (start + i) % TWO32 % count
  }

  /** Without wrap-around a full scan tries every slot. */
  lemma ScanCovers(start: U32, count: nat, k: nat) returns (i: nat)
    requires k < count && start + count <= TWO32
    ensures i < count && ScanIndex(start, i, count) == k
  {
    var r := start % count;
    var q := start / count;
    assert start == q * count + r;
    i := if k >= r then k - r else k + count - r;
    var base := if k >= r then q else q + 1;
    assert start + i == base * count + k;
    Remainder(base, count, k);
  }

  lemma Remainder(q: nat, count: nat, k: nat)
    requires k < count
    ensures (q * count + k) % count == k
  {
    var x := q * count + k;
    assert x == x / count * count + x % count;
    StepUnique(x / count, x % count, q, k, count);
  }

  /** The signed 32-bit image of a slot index: indices from 2^31 up turn negative. */
  function Signed32(k: nat): int {
    var low := k % TWO32;
    if low < 0x8000_0000 then low else low - TWO32
  }

  /** Within 2^32 slots a claimed index survives the conversion exactly when it is below 2^31. */
  lemma SignedExactly(k: nat)
    requires k < TWO32
    ensures Signed32(k) >= 0 <==> k < 0x8000_0000
    ensures Signed32(k) >= 0 ==> Signed32(k) == k
  {}

  /** The first empty slot of a scan from `start` that has passed `i` slots. */
  function FirstEmpty(slots: seq<Slot>, start: U32, i: nat): (r: Option<nat>)
    ensures r.Some? ==> r.value < |slots| && slots[r.value].state.Empty?
    decreases |slots| - i
  {
    if i >= |slots| then None
    else
      var k := ScanIndex(start, i, |slots|);
      if slots[k].state.Empty? then Some(k) else FirstEmpty(slots, start, i + 1)
  }

  /** Every slot tried before it is taken. */
  lemma {:induction false} FirstEmptyMeaning(slots: seq<Slot>, start: U32, i: nat)
    requires i <= |slots|
    ensures var r := FirstEmpty(slots, start, i);
            && (r.Some? ==>
                  exists m: nat :: i <= m < |slots| && ScanIndex(start, m, |slots|) == r.value && TakenBetween(slots, start, i, m))
            && (r.None? ==> TakenBetween(slots, start, i, |slots|))
    decreases |slots| - i
  {
    if i < |slots| {
      if slots[ScanIndex(start, i, |slots|)].state.Empty? {
        assert TakenBetween(slots, start, i, i);
      } else {
        FirstEmptyMeaning(slots, start, i + 1);
        var r := FirstEmpty(slots, start, i + 1);
        if r.Some? {
          var m: nat :| i + 1 <= m < |slots| && ScanIndex(start, m, |slots|) == r.value && TakenBetween(slots, start, i + 1, m);
          assert TakenBetween(slots, start, i, m);
        }
      }
    }
  }

  ghost predicate TakenBetween(slots: seq<Slot>, start: U32, from: nat, to: nat) {
    forall j: nat | from <= j < to && slots != [] :: !slots[ScanIndex(start, j, |slots|)].state.Empty?
  }

  /** Without wrap-around a scan finds nothing only in a full ring. */
  lemma NoneMeansFull(slots: seq<Slot>, start: U32)
    requires FirstEmpty(slots, start, 0).None? && start + |slots| <= TWO32
    ensures forall k | 0 <= k < |slots| :: !slots[k].state.Empty?
  {
    FirstEmptyMeaning(slots, start, 0);
    forall k | 0 <= k < |slots| ensures !slots[k].state.Empty? {
      var i := ScanCovers(start, |slots|, k);
    }
  }

  class PublicationRing {
    var slots: seq<Slot>
    var next: U32

    constructor (capacity: nat)
      ensures |slots| == capacity && next == 0
      ensures forall k | 0 <= k < capacity :: slots[k].state.Empty?
    {
      slots := seq(capacity, _ => Slot(Empty, NO_TASK));
      next := 0;
    }

    /** Claims the first empty slot of a scan that starts where the counter points, and returns its index as a signed
        32-bit number, or -1.  `claimed` is the slot itself. */
    method Reserve() returns (r: int, ghost claimed: Option<nat>)
      requires |slots| < TWO32
      modifies this
      ensures claimed == FirstEmpty(old(slots), old(next), 0)
      ensures r == if claimed.Some? then Signed32(claimed.value) else -1
      ensures slots == if claimed.None? then old(slots)
                       else old(slots)[claimed.value := old(slots)[claimed.value].(state := Writing)]
      ensures next == if slots == [] then old(next) else Bump32(old(next))
    {
      if slots == [] {
        return -1, None;
      }
      var start := next;
      next := Bump32(next);
      for i := 0 to |slots|
        invariant slots == old(slots) && FirstEmpty(slots, start, i) == FirstEmpty(slots, start, 0)
      {
        var index := ScanIndex(start, i, |slots|);
        if slots[index].state.Empty? {
          slots := slots[index := slots[index].(state := Writing)];
          return Signed32(index), Some(index);
        }
      }
      r, claimed := -1, None;
    }

    method WriteSlot(slot: nat, task: Task) returns (ok: bool)
      modifies this
      ensures ok <==> slot < |old(slots)| && old(slots)[slot].state.Writing? && task.WellFormed()
      ensures next == old(next) && slots == if ok then old(slots)[slot := Slot(Writing, task)] else old(slots)
    {
      if slot >= |slots| || !slots[slot].state.Writing? || task.nodeGeneration == 0 || task.rootGeneration == 0 {
        return false;
      }
      slots := slots[slot := slots[slot].(task := task)];
      ok := true;
    }

    /** Every hand-over is one compare-exchange. */
    method CompareExchange(slot: nat, expected: PublicationState, desired: PublicationState) returns (ok: bool)
      modifies this
      ensures ok <==> slot < |old(slots)| && old(slots)[slot].state == expected
      ensures next == old(next)
      ensures slots == if ok then old(slots)[slot := old(slots)[slot].(state := desired)] else old(slots)
    {
      ok := slot < |slots| && slots[slot].state == expected;
      if ok {
        slots := slots[slot := slots[slot].(state := desired)];
      }
    }

    method Publish(slot: nat) returns (ok: bool)
      modifies this
      ensures ok <==> slot < |old(slots)| && old(slots)[slot].state.Writing?
      ensures next == old(next) && slots == if ok then old(slots)[slot := old(slots)[slot].(state := Published)] else old(slots)
    {
      ok := CompareExchange(slot, Writing, Published);
    }

    method Acquire(slot: nat) returns (task: Option<Task>)
      ensures task == if slot < |slots| && slots[slot].state.Published? then Some(slots[slot].task) else None
    {
      task := if slot < |slots| && slots[slot].state.Published? then Some(slots[slot].task) else None;
    }

    method Consume(slot: nat) returns (ok: bool)
      modifies this
      ensures ok <==> slot < |old(slots)| && old(slots)[slot].state.Published?
      ensures next == old(next) && slots == if ok then old(slots)[slot := old(slots)[slot].(state := Consumed)] else old(slots)
    {
      ok := CompareExchange(slot, Published, Consumed);
    }

    method Abort(slot: nat) returns (ok: bool)
      modifies this
      ensures ok <==> slot < |old(slots)| && old(slots)[slot].state.Writing?
      ensures next == old(next) && slots == if ok then old(slots)[slot := old(slots)[slot].(state := Empty)] else old(slots)
    {
      ok := CompareExchange(slot, Writing, Empty);
    }

    /** Publishes a well-formed task into the first empty slot.  A failure leaves every slot alone, except that a slot
        whose index turned negative on the way stays claimed for ever (`lost`). */
    method PublishTask(task: Task) returns (r: Option<nat>, ghost lost: Option<nat>)
      requires |slots| < TWO32
      modifies this
      ensures var first := FirstEmpty(old(slots), old(next), 0);
              && lost == (if first.Some? && first.value >= 0x8000_0000 then first else None)
              && r == (if first.Some? && first.value < 0x8000_0000 && task.WellFormed() then first else None)
      ensures slots == if r.Some? then old(slots)[r.value := Slot(Published, task)]
                       else if lost.Some? then old(slots)[lost.value := old(slots)[lost.value].(state := Writing)]
                       else old(slots)
      ensures next == if slots == [] then old(next) else Bump32(old(next))
    {
      var reserved; ghost var claimed;
      reserved, claimed := Reserve();
      if claimed.Some? {
        SignedExactly(claimed.value);
      }
      if reserved < 0 {
        return None, claimed;
      }
      lost := None;
      var index := reserved;
      var written := WriteSlot(index, task);
      if !written {
        var aborted := Abort(index);
      assert slots == old(slots);
        return None, None;
      }
      var published := Publish(index);
      assert published;
      r := Some(index);
    }
  }

  /** Publishes and consumes the tasks in order into a ring of as many slots: the task at each position takes the slot
      of that index, so the only tasks that fail are ill-formed ones and the one whose index turns negative
      (src/backends/reference/reference_executor.cpp, `execute_task_graph`). */
  method PublishInOrder(tasks: seq<Task>, order: seq<nat>) returns (ok: bool, published: seq<Task>)
    requires |order| == |tasks| < TWO32 && forall k | 0 <= k < |order| :: order[k] < |tasks|
    ensures ok <==> (forall k | 0 <= k < |order| :: tasks[order[k]].WellFormed()) && |tasks| <= 0x8000_0000
    ensures |published| <= |order| && forall k | 0 <= k < |published| :: published[k] == tasks[order[k]]
    ensures ok ==> |published| == |order|
  {
    var ring := new PublicationRing(|tasks|);
    published := [];
    for k := 0 to |order|
      invariant fresh(ring) && |ring.slots| == |tasks| && ring.next == k <= 0x8000_0000
      invariant forall j | k <= j < |tasks| :: ring.slots[j].state.Empty?
      invariant forall j | 0 <= j < k :: tasks[order[j]].WellFormed()
      invariant |published| == k && forall j | 0 <= j < k :: published[j] == tasks[order[j]]
    {
      NextIsEmpty(ring.slots, k);
      var slot; ghost var lost;
      slot, lost := ring.PublishTask(tasks[order[k]]);
      if slot.None? {
        return false, published;
      }
      var consumed := ring.Consume(slot.value);
      assert consumed;
      published := published + [tasks[order[k]]];
    }
    ok := true;
  }

  lemma NextIsEmpty(slots: seq<Slot>, k: nat)
    requires k < |slots| < TWO32 && slots[k].state.Empty?
    ensures FirstEmpty(slots, k, 0) == Some(k)
  {
    Remainder(0, TWO32, k);
    Remainder(0, |slots|, k);
  }
}
