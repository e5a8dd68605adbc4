/** The publication ring under concurrent clients: every atomic access is one step, and steps of different clients
    interleave freely (src/core/task_graph.cpp, `publish_task` and `consume`). */
module RingSteps {
  import opened Ir
  import opened ArenaStore
  import opened PublicationRings
  import opened Collections

  /** Where a client of `publish_task` stands. */
  datatype Client =
    | Idle(task: Task)
    | Scanning(task: Task, start: U32, tried: nat)
    | Claimed(task: Task, slot: nat)
    | Filled(task: Task, slot: nat)
    | Aborting(task: Task, slot: nat)
    | Done(task: Task, slot: nat)
    | Failed(task: Task)
  {
    predicate Owns(k: nat) {
      (Claimed? || Filled? || Aborting?) && slot == k
    }

    predicate Holds(k: nat) {
      Owns(k) || (Done? && slot == k)
    }
  }

  /** The ring, its clients, and the slots consumed so far in order. */
  datatype Ring = Ring(slots: seq<Slot>, next: U32, clients: map<nat, Client>, consumed: seq<nat>) {
    function With(c: nat, client: Client): Ring {
      this.(clients := clients[c := client])
    }

    function Set(k: nat, slot: Slot): Ring
      requires k < |slots|
    {
      this.(slots := slots[k := slot])
    }
  }

  /** The next atomic access of a client, or a consumer's compare-exchange. */
  datatype Event = Advance(client: nat) | Consume(slot: nat)

  function ClientStep(r: Ring, c: nat): Ring
    requires c in r.clients
  {
    match r.clients[c]
    case Idle(task) =>
      if r.slots == [] then r.With(c, Failed(task))
      else r.(next := Bump32(r.next)).With(c, Scanning(task, r.next, 0))
    case Scanning(task, start, tried) =>
      if tried >= |r.slots| then r.With(c, Failed(task))
      else
        var k := ScanIndex(start, tried, |r.slots|);
        if r.slots[k].state.Empty? then
          r.Set(k, r.slots[k].(state := Writing)).With(c, if Signed32(k) < 0 then Failed(task) else Claimed(task, k))
        else r.With(c, Scanning(task, start, tried + 1))
    case Claimed(task, k) =>
      if k < |r.slots| && r.slots[k].state.Writing? && task.WellFormed() then
        r.Set(k, r.slots[k].(task := task)).With(c, Filled(task, k))
      else r.With(c, Aborting(task, k))
    case Filled(task, k) =>
      if k < |r.slots| && r.slots[k].state.Writing? then
        r.Set(k, r.slots[k].(state := Published)).With(c, Done(task, k))
      else r.With(c, Aborting(task, k))
    case Aborting(task, k) =>
      if k < |r.slots| && r.slots[k].state.Writing? then
        r.Set(k, r.slots[k].(state := Empty)).With(c, Failed(task))
      else r.With(c, Failed(task))
    case Done(_, _) => r
    case Failed(_) => r
  }

  function Next(r: Ring, e: Event): Ring {
    match e
    case Advance(c) => if c in r.clients then ClientStep(r, c) else r
    case Consume(k) =>
      if k < |r.slots| && r.slots[k].state.Published? then
        r.Set(k, r.slots[k].(state := Consumed)).(consumed := r.consumed + [k])
      else r
  }

  predicate HandedOver(slot: Slot) {
    slot.state.Published? || slot.state.Consumed?
  }

  // ------------------------------------------------------------ the invariant

  /** What a client's position says about its slot. */
  ghost predicate Agrees(slots: seq<Slot>, client: Client) {
    match client
    case Claimed(_, k) => k < |slots| && slots[k].state.Writing?
    case Filled(task, k) => k < |slots| && slots[k].state.Writing? && slots[k].task == task && task.WellFormed()
    case Aborting(task, k) => k < |slots| && slots[k].state.Writing? && !task.WellFormed()
    case Done(task, k) => k < |slots| && HandedOver(slots[k]) && slots[k].task == task
    case _ => true
  }

  ghost predicate RingValid(r: Ring) {
    && (forall c | c in r.clients :: Agrees(r.slots, r.clients[c]))
    && (forall c, d, k: nat | c in r.clients && d in r.clients && r.clients[c].Holds(k) && r.clients[d].Holds(k) :: c == d)
    && (forall k: nat | k < |r.slots| && !r.slots[k].state.Empty? :: HasHolder(r, k) || Lost(r, k))
    && |r.slots| < TWO32
    && (forall k: nat :: k in r.consumed <==> k < |r.slots| && r.slots[k].state.Consumed?)
    && (forall i, j | 0 <= i < j < |r.consumed| :: r.consumed[i] != r.consumed[j])
  }

  /** Claimed by a client that took the claim's negative index for a failure. */
  ghost predicate Lost(r: Ring, k: nat) {
    0x8000_0000 <= k < |r.slots| && r.slots[k].state.Writing? && !HasHolder(r, k)
  }

  ghost predicate HasHolder(r: Ring, k: nat) {
    exists c | c in r.clients :: r.clients[c].Holds(k)
  }

  /** A step of one client leaves the slots that others hold, and their holders, alone. */
  lemma OthersUntouched(r: Ring, c: nat)
    requires RingValid(r) && c in r.clients
    ensures var s := ClientStep(r, c);
            && |s.slots| == |r.slots| && s.consumed == r.consumed
            && s.clients.Keys == r.clients.Keys
            && (forall d | d in r.clients && d != c :: s.clients[d] == r.clients[d] && Agrees(s.slots, r.clients[d]))
  {
    var s := ClientStep(r, c);
    forall d | d in r.clients && d != c ensures Agrees(s.slots, r.clients[d]) {
      assert Agrees(r.slots, r.clients[d]) && Agrees(r.slots, r.clients[c]);
      if r.clients[d].Claimed? || r.clients[d].Filled? || r.clients[d].Aborting? || r.clients[d].Done? {
        assert r.clients[d].Holds(r.clients[d].slot);
      }
    }
  }

  lemma HoldersAfterStep(r: Ring, c: nat)
    requires RingValid(r) && c in r.clients
    ensures var s := ClientStep(r, c);
            && Agrees(s.slots, s.clients[c])
            && (forall k: nat | s.clients[c].Holds(k) :: r.clients[c].Holds(k) || (k < |r.slots| && r.slots[k].state.Empty?))
  {
    assert Agrees(r.slots, r.clients[c]);
  }

  /** The state of a slot changes only under its holder, or by a claim, which the claimant holds or loses. */
  lemma SlotAfterStep(r: Ring, c: nat, k: nat)
    requires RingValid(r) && c in r.clients && k < |r.slots|
    ensures var before, after, client := r.slots[k].state, ClientStep(r, c).slots[k].state, ClientStep(r, c).clients[c];
            && (after.Consumed? <==> before.Consumed?)
            && (!after.Empty? && before.Empty? && !client.Holds(k) ==> k >= 0x8000_0000 && after.Writing?)
            && (!after.Empty? && r.clients[c].Holds(k) ==> client.Holds(k))
  {
    assert Agrees(r.slots, r.clients[c]);
    if r.clients[c].Scanning? && r.clients[c].tried < |r.slots| {
      SignedExactly(ScanIndex(r.clients[c].start, r.clients[c].tried, |r.slots|));
    }
  }

  lemma HeldIsNotEmpty(r: Ring, d: nat, k: nat)
    requires RingValid(r) && d in r.clients && r.clients[d].Holds(k)
    ensures k < |r.slots| && !r.slots[k].state.Empty?
  {
    assert Agrees(r.slots, r.clients[d]);
  }

  /** A slot that nobody holds and the client does not come to hold stays without a holder, and if it was claimed it
      stays claimed. */
  lemma UnheldStaysUnheld(r: Ring, c: nat, k: nat)
    requires RingValid(r) && c in r.clients && k < |r.slots| && !HasHolder(r, k)
    requires !ClientStep(r, c).clients[c].Holds(k)
    ensures var s := ClientStep(r, c);
            !HasHolder(s, k) && (!r.slots[k].state.Empty? ==> s.slots[k] == r.slots[k])
  {
    var s := ClientStep(r, c);
    OthersUntouched(r, c);
    assert Agrees(r.slots, r.clients[c]) && !r.clients[c].Holds(k);
    forall d | d in s.clients ensures !s.clients[d].Holds(k) {
      assert d != c ==> s.clients[d] == r.clients[d];
    }
  }

  lemma ClientStepValid(r: Ring, c: nat)
    requires RingValid(r) && c in r.clients
    ensures RingValid(ClientStep(r, c))
  {
    var s := ClientStep(r, c);
    OthersUntouched(r, c);
    HoldersAfterStep(r, c);
    forall a, b, k: nat | a in s.clients && b in s.clients && s.clients[a].Holds(k) && s.clients[b].Holds(k) ensures a == b {
      if a != b {
        var other := if a == c then b else a;
        HeldIsNotEmpty(r, other, k);
      }
    }
    forall k: nat | k < |s.slots|
      ensures s.slots[k].state.Consumed? <==> r.slots[k].state.Consumed?
      ensures !s.slots[k].state.Empty? ==> HasHolder(s, k) || Lost(s, k)
    {
      SlotAfterStep(r, c, k);
      if !s.slots[k].state.Empty? {
        TakenHasHolder(r, c, k);
      }
    }
  }

  lemma TakenHasHolder(r: Ring, c: nat, k: nat)
    requires RingValid(r) && c in r.clients && k < |r.slots| && !ClientStep(r, c).slots[k].state.Empty?
    ensures HasHolder(ClientStep(r, c), k) || Lost(ClientStep(r, c), k)
  {
    var s := ClientStep(r, c);
    OthersUntouched(r, c);
    SlotAfterStep(r, c, k);
    if s.clients[c].Holds(k) {
      assert HasHolder(s, k);
    } else if HasHolder(r, k) {
      var d :| d in r.clients && r.clients[d].Holds(k);
      assert d != c && s.clients[d].Holds(k);
    } else {
      UnheldStaysUnheld(r, c, k);
    }
  }

  lemma ConsumeValid(r: Ring, k: nat)
    requires RingValid(r)
    ensures RingValid(Next(r, Consume(k)))
  {
    var s := Next(r, Consume(k));
    forall c | c in s.clients ensures Agrees(s.slots, s.clients[c]) {
      assert Agrees(r.slots, r.clients[c]);
    }
    forall j: nat | j < |s.slots| && !s.slots[j].state.Empty? ensures HasHolder(s, j) || Lost(s, j) {
      assert HasHolder(s, j) <==> HasHolder(r, j);
      assert !r.slots[j].state.Empty?;
    }
  }

  lemma NextValid(r: Ring, e: Event)
    requires RingValid(r)
    ensures RingValid(Next(r, e))
  {
    match e
    case Advance(c) =>
      if c in r.clients {
        ClientStepValid(r, c);
      }
    case Consume(k) => ConsumeValid(r, k);
  }

  // ------------------------------------------------------------ one step

  /** A published task is the one its single publisher wrote. */
  lemma PublishedIsOwners(r: Ring, k: nat) returns (c: nat)
    requires RingValid(r) && k < |r.slots| && HandedOver(r.slots[k])
    ensures c in r.clients && r.clients[c] == Done(r.slots[k].task, k)
    ensures forall d | d in r.clients && r.clients[d].Holds(k) :: d == c
  {
    assert HasHolder(r, k) || Lost(r, k);
    c :| c in r.clients && r.clients[c].Holds(k);
    assert Agrees(r.slots, r.clients[c]);
  }

  /** A claim is lost exactly when its index does not fit a signed 32-bit number. */
  lemma ClaimLostExactly(r: Ring, c: nat)
    requires RingValid(r) && c in r.clients && r.clients[c].Scanning? && r.clients[c].tried < |r.slots|
    requires r.slots[ScanIndex(r.clients[c].start, r.clients[c].tried, |r.slots|)].state.Empty?
    ensures var k := ScanIndex(r.clients[c].start, r.clients[c].tried, |r.slots|);
            var s := ClientStep(r, c);
            && (s.clients[c].Failed? <==> k >= 0x8000_0000)
            && (s.clients[c].Failed? <==> Lost(s, k))
  {
    var k := ScanIndex(r.clients[c].start, r.clients[c].tried, |r.slots|);
    SignedExactly(k);
    var s := ClientStep(r, c);
    OthersUntouched(r, c);
    forall d | d in r.clients && d != c ensures !s.clients[d].Holds(k) {
      if r.clients[d].Holds(k) {
        HeldIsNotEmpty(r, d, k);
      }
    }
    if s.clients[c].Claimed? {
      assert s.clients[c].Holds(k);
    }
  }

  /** No step ever frees a lost slot. */
  lemma LostForGood(r: Ring, e: Event, k: nat)
    requires RingValid(r) && Lost(r, k)
    ensures Lost(Next(r, e), k)
  {
    if e.Advance? && e.client in r.clients {
      assert Agrees(r.slots, r.clients[e.client]) && !r.clients[e.client].Holds(k);
      HoldersAfterStep(r, e.client);
      SlotAfterStep(r, e.client, k);
      UnheldStaysUnheld(r, e.client, k);
    } else {
      assert HasHolder(Next(r, e), k) <==> HasHolder(r, k);
    }
  }

  /** Once handed over, a slot stays handed over with the same task; a consumed one stays consumed. */
  lemma HandedOverStays(r: Ring, e: Event, k: nat)
    requires RingValid(r) && k < |r.slots| && HandedOver(r.slots[k])
    ensures var s := Next(r, e);
            && |s.slots| == |r.slots| && HandedOver(s.slots[k]) && s.slots[k].task == r.slots[k].task
            && (r.slots[k].state.Consumed? ==> s.slots[k].state.Consumed?)
  {
    if e.Advance? && e.client in r.clients {
      assert Agrees(r.slots, r.clients[e.client]);
    }
  }

  /** No other client makes the owner's steps fail: only an ill-formed task is ever aborted. */
  lemma OwnersSucceed(r: Ring, c: nat)
    requires RingValid(r) && c in r.clients
    ensures r.clients[c].Filled? ==> ClientStep(r, c).clients[c].Done?
    ensures r.clients[c].Claimed? ==> (ClientStep(r, c).clients[c].Filled? <==> r.clients[c].task.WellFormed())
  {
    assert Agrees(r.slots, r.clients[c]);
  }

  // ------------------------------------------------------------ no overflow

  /** Every slot a scan has passed over is taken, and a client that gave up saw them all. */
  ghost predicate SeenTaken(r: Ring, client: Client) {
    match client
    case Scanning(_, start, tried) =>
      && start + |r.slots| <= TWO32
      && forall j: nat | j < tried && j < |r.slots| :: !r.slots[ScanIndex(start, j, |r.slots|)].state.Empty?
    case Failed(_) => forall k | 0 <= k < |r.slots| :: !r.slots[k].state.Empty?
    case _ => true
  }

  ghost predicate NothingMissed(r: Ring) {
    && |r.slots| <= 0x8000_0000
    && (forall c | c in r.clients :: r.clients[c].task.WellFormed())
    && (forall c | c in r.clients :: SeenTaken(r, r.clients[c]))
  }

  /** Without ill-formed tasks no slot becomes empty again. */
  lemma TakenStays(r: Ring, e: Event)
    requires RingValid(r) && NothingMissed(r)
    ensures var s := Next(r, e);
            |s.slots| == |r.slots| && forall k | 0 <= k < |r.slots| && !r.slots[k].state.Empty? :: !s.slots[k].state.Empty?
  {
    if e.Advance? && e.client in r.clients {
      assert Agrees(r.slots, r.clients[e.client]);
    }
  }

  lemma GivingUpSawAll(r: Ring, start: U32)
    requires r.slots != [] && start + |r.slots| <= TWO32
    requires forall j: nat | j < |r.slots| :: !r.slots[ScanIndex(start, j, |r.slots|)].state.Empty?
    ensures forall k | 0 <= k < |r.slots| :: !r.slots[k].state.Empty?
  {
    forall k | 0 <= k < |r.slots| ensures !r.slots[k].state.Empty? {
      var i := ScanCovers(start, |r.slots|, k);
    }
  }

  lemma SeenStays(r: Ring, s: Ring, client: Client)
    requires SeenTaken(r, client) && |s.slots| == |r.slots|
    requires forall k | 0 <= k < |r.slots| && !r.slots[k].state.Empty? :: !s.slots[k].state.Empty?
    ensures SeenTaken(s, client)
  {}

  /** The client that steps has seen what its new position says it has. */
  lemma ActorSawIt(r: Ring, c: nat)
    requires RingValid(r) && NothingMissed(r) && r.next + |r.slots| <= TWO32 && c in r.clients
    ensures SeenTaken(ClientStep(r, c), ClientStep(r, c).clients[c])
    ensures ClientStep(r, c).clients[c].task == r.clients[c].task
  {
    var client := r.clients[c];
    assert SeenTaken(r, client) && Agrees(r.slots, client) && client.task.WellFormed();
    if client.Scanning? && r.slots != [] {
      if client.tried >= |r.slots| {
        GivingUpSawAll(r, client.start);
      } else {
        SignedExactly(ScanIndex(client.start, client.tried, |r.slots|));
      }
    }
  }

  lemma NextMissesNothing(r: Ring, e: Event)
    requires RingValid(r) && NothingMissed(r) && r.next + |r.slots| <= TWO32
    ensures NothingMissed(Next(r, e))
  {
    var s := Next(r, e);
    TakenStays(r, e);
    if e.Advance? && e.client in r.clients {
      OthersUntouched(r, e.client);
      ActorSawIt(r, e.client);
    }
    forall c | c in s.clients ensures s.clients[c].task.WellFormed() && SeenTaken(s, s.clients[c]) {
      if e != Advance(c) {
        assert s.clients[c] == r.clients[c];
        SeenStays(r, s, r.clients[c]);
      }
    }
  }

  /** Distinct slots have distinct holders. */
  lemma {:induction false} HoldersOf(r: Ring, count: nat) returns (holders: set<nat>)
    requires RingValid(r) && count <= |r.slots| <= 0x8000_0000
    requires forall k | 0 <= k < count :: !r.slots[k].state.Empty?
    ensures holders <= r.clients.Keys && |holders| == count
    ensures forall c | c in holders :: exists k: nat :: k < count && r.clients[c].Holds(k)
  {
    if count == 0 {
      holders := {};
    } else {
      var rest := HoldersOf(r, count - 1);
      assert HasHolder(r, count - 1) || Lost(r, count - 1);
      var c :| c in r.clients && r.clients[c].Holds(count - 1);
      holders := rest + {c};
    }
  }

  /** A client fails only when other clients hold every slot, so no more clients than slots never overflow. */
  lemma FailureMeansFull(r: Ring, c: nat)
    requires RingValid(r) && NothingMissed(r) && c in r.clients && r.clients[c].Failed?
    ensures |r.clients| > |r.slots|
  {
    assert SeenTaken(r, r.clients[c]);
    var holders := HoldersOf(r, |r.slots|);
    assert c !in holders;
    SubsetSize(holders + {c}, r.clients.Keys);
    assert |r.clients.Keys| == |r.clients|;
  }

  // ------------------------------------------------------------ whole runs

  ghost predicate Initial(r: Ring) {
    && |r.slots| < TWO32
    && (forall k | 0 <= k < |r.slots| :: r.slots[k].state.Empty?)
    && (forall c | c in r.clients :: r.clients[c].Idle?)
    && r.consumed == []
  }

  ghost predicate IsRun(rings: seq<Ring>, events: seq<Event>) {
    && |rings| == |events| + 1 && Initial(rings[0])
    && forall k: nat | k < |events| :: StepAt(rings, events, k)
  }

  ghost predicate StepAt(rings: seq<Ring>, events: seq<Event>, k: nat) {
    k + 1 < |rings| && k < |events| && rings[k + 1] == Next(rings[k], events[k])
  }

  /** In every interleaving: one owner per slot being written, published tasks are their owners', and no slot is
      consumed twice. */
  lemma {:induction false} RunsAreValid(rings: seq<Ring>, events: seq<Event>, k: nat)
    requires IsRun(rings, events) && k < |rings|
    ensures RingValid(rings[k])
  {
    if k > 0 {
      RunsAreValid(rings, events, k - 1);
      NextValid(rings[k - 1], events[k - 1]);
      assert StepAt(rings, events, k - 1);
    }
  }

  ghost predicate Handed(r: Ring, slot: nat) {
    slot < |r.slots| && HandedOver(r.slots[slot])
  }

  /** A slot never becomes empty again after it was published, and keeps its task. */
  lemma {:induction false} PublishedForGood(rings: seq<Ring>, events: seq<Event>, j: nat, k: nat, slot: nat)
    requires IsRun(rings, events) && j <= k < |rings| && Handed(rings[j], slot)
    ensures Handed(rings[k], slot) && rings[k].slots[slot].task == rings[j].slots[slot].task
  {
    if j < k {
      PublishedForGood(rings, events, j, k - 1, slot);
      RunsAreValid(rings, events, k - 1);
      HandedOverStays(rings[k - 1], events[k - 1], slot);
      assert StepAt(rings, events, k - 1);
    }
  }

  /** A lost slot stays lost for the rest of the run. */
  lemma {:induction false} LostInRun(rings: seq<Ring>, events: seq<Event>, j: nat, k: nat, slot: nat)
    requires IsRun(rings, events) && j <= k < |rings| && Lost(rings[j], slot)
    ensures Lost(rings[k], slot)
  {
    if j < k {
      LostInRun(rings, events, j, k - 1, slot);
      RunsAreValid(rings, events, k - 1);
      LostForGood(rings[k - 1], events[k - 1], slot);
      assert StepAt(rings, events, k - 1);
    }
  }

  ghost predicate CountersBelow(rings: seq<Ring>) {
    forall k | 0 <= k < |rings| :: rings[k].next + |rings[k].slots| <= TWO32 && |rings[k].slots| <= 0x8000_0000
  }

  lemma NextKeepsSizes(r: Ring, e: Event)
    ensures |Next(r, e).clients| == |r.clients| && |Next(r, e).slots| == |r.slots|
  {
    assert Next(r, e).clients.Keys == r.clients.Keys;
    assert |Next(r, e).clients.Keys| == |Next(r, e).clients| && |r.clients.Keys| == |r.clients|;
  }

  lemma {:induction false} RunsMissNothing(rings: seq<Ring>, events: seq<Event>, k: nat)
    requires IsRun(rings, events) && CountersBelow(rings) && k < |rings|
    requires forall c | c in rings[0].clients :: rings[0].clients[c].task.WellFormed()
    ensures NothingMissed(rings[k]) && |rings[k].clients| == |rings[0].clients| && |rings[k].slots| == |rings[0].slots|
  {
    if k > 0 {
      RunsMissNothing(rings, events, k - 1);
      RunsAreValid(rings, events, k - 1);
      assert StepAt(rings, events, k - 1);
      NextMissesNothing(rings[k - 1], events[k - 1]);
      NextKeepsSizes(rings[k - 1], events[k - 1]);
    }
  }

  /** However the steps interleave, no client of a ring with at least as many slots as clients ever fails, provided
      the tasks are well-formed and the slot counter does not wrap. */
  lemma NoOverflow(rings: seq<Ring>, events: seq<Event>, k: nat, c: nat)
    requires IsRun(rings, events) && CountersBelow(rings) && k < |rings|
    requires forall d | d in rings[0].clients :: rings[0].clients[d].task.WellFormed()
    requires |rings[0].clients| <= |rings[0].slots| && c in rings[k].clients
    ensures !rings[k].clients[c].Failed?
  {
    RunsMissNothing(rings, events, k);
    RunsAreValid(rings, events, k);
    if rings[k].clients[c].Failed? {
      FailureMeansFull(rings[k], c);
    }
  }
}
