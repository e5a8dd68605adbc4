/** A ring of 2^31 + 1 slots filled from the start by as many clients, one after another: the last claim is lost
    (src/core/task_graph.cpp, `reserve` and `publish_task`). */
module RingOverflow {
  import opened Ir
  import opened ArenaStore
  import opened PublicationRings
  import opened RingSteps
  import opened Collections

  /** The first index that turns negative. */
  const LIMIT: nat := 0x8000_0000

  const TASK := Task(0, 1, 1)

  /** A publication takes four steps: to fetch the counter, to claim, to write and to publish. */
  const LAST_FETCH: nat := 4 * LIMIT + 1

  /** Slot `s` after `i` steps of the clients in turn. */
  function SlotAfter(i: nat, s: nat): Slot {
    if s < i / 4 then Slot(Published, TASK)
    else if s == i / 4 && i % 4 >= 2 then Slot(Writing, if i % 4 == 3 then TASK else NO_TASK)
    else Slot(Empty, NO_TASK)
  }

  function ClientAfter(i: nat, c: nat): Client
    requires i <= LAST_FETCH
  {
    if c < i / 4 then Done(TASK, c)
    else if c > i / 4 || i % 4 == 0 then Idle(TASK)
    else if i % 4 == 1 then Scanning(TASK, c, 0)
    else if i % 4 == 2 then Claimed(TASK, c)
    else Filled(TASK, c)
  }

  function ClientIds(): (ids: set<nat>)
    ensures forall c: nat :: c in ids <==> c <= LIMIT
    ensures |ids| == LIMIT + 1
  {
    Below(LIMIT + 1)
  }

  ghost function Filling(i: nat): Ring
    requires i <= LAST_FETCH
  {
    Ring(seq(LIMIT + 1, s requires 0 <= s < LIMIT + 1 => SlotAfter(i, s)),
         if i % 4 == 0 then i / 4 else i / 4 + 1,
         map c | c in ClientIds() :: ClientAfter(i, c), [])
  }

  lemma NextPhase(i: nat)
    ensures i % 4 == 3 ==> (i + 1) / 4 == i / 4 + 1 && (i + 1) % 4 == 0
    ensures i % 4 != 3 ==> (i + 1) / 4 == i / 4 && (i + 1) % 4 == i % 4 + 1
  {}

  /** Only the slot in turn changes. */
  lemma SlotsStep(i: nat)
    requires i < LAST_FETCH
    ensures Filling(i + 1).slots == Filling(i).slots[i / 4 := if i % 4 == 3 then Slot(Published, TASK) else SlotAfter(i + 1, i / 4)]
  {
    NextPhase(i);
    var before, after := Filling(i).slots, Filling(i + 1).slots;
    forall s | 0 <= s < LIMIT + 1 && s != i / 4 ensures after[s] == before[s] {}
  }

  /** Only the client in turn moves. */
  lemma ClientsStep(i: nat)
    requires i < LAST_FETCH
    ensures Filling(i + 1).clients == Filling(i).clients[i / 4 := ClientAfter(i + 1, i / 4)]
  {
    NextPhase(i);
    var before, after := Filling(i).clients, Filling(i + 1).clients;
    forall c | c in after && c != i / 4 ensures after[c] == before[c] {}
    assert after.Keys == before.Keys;
  }

  /** One step of the client in turn, in any ring that agrees on its slot and its position. */
  lemma TurnOf(r: Ring, i: nat)
    requires i < LAST_FETCH && |r.slots| == LIMIT + 1 && i / 4 in r.clients
    requires r.clients[i / 4] == ClientAfter(i, i / 4) && r.slots[i / 4] == SlotAfter(i, i / 4)
    requires r.next == if i % 4 == 0 then i / 4 else i / 4 + 1
    ensures Next(r, Advance(i / 4)) ==
            Ring(r.slots[i / 4 := if i % 4 == 3 then Slot(Published, TASK) else SlotAfter(i + 1, i / 4)], i / 4 + 1,
                 r.clients[i / 4 := ClientAfter(i + 1, i / 4)], r.consumed)
  {
    NextPhase(i);
    var k := i / 4;
    assert ScanIndex(k, 0, LIMIT + 1) == k && Signed32(k) == if k < LIMIT then k else k - TWO32;
    if i % 4 == 0 {
      assert r.slots[k := r.slots[k]] == r.slots;
    }
  }

  lemma FillingStep(i: nat)
    requires i < LAST_FETCH
    ensures Next(Filling(i), Advance(i / 4)) == Filling(i + 1)
  {
    NextPhase(i);
    SlotsStep(i);
    ClientsStep(i);
    TurnOf(Filling(i), i);
  }

  /** The claim of the last client is lost. */
  lemma LastClaimIsLost()
    ensures var s := Next(Filling(LAST_FETCH), Advance(LIMIT));
            && LIMIT in s.clients && s.clients[LIMIT].Failed? && Lost(s, LIMIT)
            && s.next == LIMIT + 1
  {
    var r := Filling(LAST_FETCH);
    assert LAST_FETCH / 4 == LIMIT && LAST_FETCH % 4 == 1;
    assert ScanIndex(LIMIT, 0, LIMIT + 1) == LIMIT && Signed32(LIMIT) < 0;
    var s := Next(r, Advance(LIMIT));
    forall c | c in s.clients ensures !s.clients[c].Holds(LIMIT) {}
  }

  lemma StartsEmpty()
    ensures var r := Filling(0);
            && Initial(r) && r.next == 0 && |r.clients| == |r.slots| == LIMIT + 1
            && forall c | c in r.clients :: r.clients[c].task.WellFormed()
  {
    var r := Filling(0);
    assert r.clients.Keys == ClientIds();
    assert |r.clients.Keys| == |r.clients|;
  }

  ghost function States(): (r: seq<Ring>)
    ensures |r| == LAST_FETCH + 2 && r[LAST_FETCH + 1] == Next(Filling(LAST_FETCH), Advance(LIMIT))
    ensures forall i | 0 <= i < LAST_FETCH + 1 :: r[i] == Filling(i)
  {
    seq(LAST_FETCH + 1, i requires 0 <= i < LAST_FETCH + 1 => Filling(i)) + [Next(Filling(LAST_FETCH), Advance(LIMIT))]
  }

  ghost function Steps(): (r: seq<Event>)
    ensures |r| == LAST_FETCH + 1 && forall i | 0 <= i < LAST_FETCH + 1 :: r[i] == Advance(i / 4)
  {
    seq(LAST_FETCH + 1, i requires 0 <= i < LAST_FETCH + 1 => Advance(i / 4))
  }

  lemma StepsFollow(k: nat)
    requires k < LAST_FETCH + 1
    ensures StepAt(States(), Steps(), k)
  {
    if k < LAST_FETCH {
      FillingStep(k);
    } else {
      assert Steps()[LAST_FETCH] == Advance(LIMIT);
    }
  }

  /** The run: well-formed tasks, no more clients than slots, a counter that starts at zero and does not wrap; and still
      the last client fails, and its slot is lost. */
  lemma LastClientOverflows()
    ensures IsRun(States(), Steps()) && States()[0].next == 0
    ensures |States()[0].clients| == |States()[0].slots| == LIMIT + 1
    ensures forall c | c in States()[0].clients :: States()[0].clients[c].task.WellFormed()
    ensures var last := States()[|Steps()|];
            LIMIT in last.clients && last.clients[LIMIT].Failed? && Lost(last, LIMIT)
  {
    StartsEmpty();
    forall k: nat | k < |Steps()| ensures StepAt(States(), Steps(), k) {
      StepsFollow(k);
    }
    LastClaimIsLost();
  }
}
