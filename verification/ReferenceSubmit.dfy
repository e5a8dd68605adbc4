/** The reference backend's schedule interpreter (src/backends/reference/reference_device_hal.cpp, `submit`):
    tasks are entered in component-major wave order; a failure cancels the failed task's descendants and the
    remaining tasks are retried until no pass makes progress. */
module ReferenceSubmit {
  import opened Ir
  import opened Arenas
  import opened Wrappers
  import opened Interpreter
  import opened Digraph
  import opened Collections
  import opened Adjacency
  import opened ScheduleSemantics
  import opened ExecutionSchedules
  import opened ScheduleProperties
  import opened CanonicalOrder
  import opened ReferenceExecutor
  import opened ArenaStore

  datatype TaskFault = TaskFault(task: nat, fault: Fault)

  datatype SubmissionResult = SubmissionResult(
    ok: bool, outputsValid: bool, poison: Poison, trace: seq<Effect>, missing: seq<Effect>, fault: Option<TaskFault>)

  // ------------------------------------------------------------ what a run accumulates

  datatype Ledger = Ledger(trace: seq<Effect>, missing: seq<Effect>, failures: seq<TaskFault>, produced: bool)

  const EMPTY := Ledger([], [], [], false)

  /** What entering one task adds. */
  function Entered(l: Ledger, t: nat, effects: seq<Effect>, outcome: TaskOutcome): Ledger
    requires outcome.Failed() ==> outcome.result.fault.Some?
  {
    match outcome
    case Cancelled => l
    case Ran(r) =>
      if r.ok then
        l.(trace := l.trace + r.trace, produced := l.produced || exists e | e in effects :: e.access != Read)
      else
        Ledger(l.trace + r.trace, l.missing + r.missing, l.failures + [TaskFault(t, r.fault.value)],
               l.produced || r.poison.PartiallyProduced?)
  }

  lemma FailureHasFault(plan: Plan, w: World, t: nat)
    requires t < |plan.modules| == |plan.effects| && Backed(w.memory)
    ensures RunTask(plan, w, t).outcomes[t].Failed() ==> RunTask(plan, w, t).outcomes[t].result.fault.Some?
  {}

  ghost function Accumulated(plan: Plan, memory: Allocations, order: seq<nat>): Ledger
    requires Tasks(plan, order) && Backed(memory)
  {
    if order == [] then EMPTY
    else
      var n := |order| - 1;
      var w := RunOrder(plan, World(memory, map[]), order[..n]);
      FailureHasFault(plan, w, order[n]);
      Entered(Accumulated(plan, memory, order[..n]), order[n], plan.effects[order[n]], RunTask(plan, w, order[n]).outcomes[order[n]])
  }

  /** A task produced output: it completed with an effect that is not a read, or failed after a write. */
  ghost predicate Produced(plan: Plan, w: World, t: nat)
    requires t < |plan.effects|
  {
    && t in w.outcomes && w.outcomes[t].Ran?
    && var r := w.outcomes[t].result;
       if r.ok then exists e | e in plan.effects[t] :: e.access != Read else r.poison.PartiallyProduced?
  }

  ghost predicate Reported(w: World, f: TaskFault) {
    FailedTask(w, f.task) && w.outcomes[f.task].result.fault == Some(f.fault)
  }

  ghost predicate FailuresExact(failures: seq<TaskFault>, w: World, order: seq<nat>) {
    && (forall f :: f in failures <==> f.task in order && Reported(w, f))
    && (forall t | t in order && FailedTask(w, t) :: w.outcomes[t].result.fault.Some?)
    && (failures == [] <==> forall t | t in order :: !FailedTask(w, t))
  }

  ghost predicate ProducedExact(plan: Plan, produced: bool, w: World, order: seq<nat>)
    requires Tasks(plan, order)
  {
    produced <==> exists i :: 0 <= i < |order| && Produced(plan, w, order[i])
  }

  /** What each task of the order traced; nothing if it did not run. */
  ghost function Traces(w: World, order: seq<nat>): (r: seq<seq<Effect>>)
    ensures |r| == |order|
  {
    seq(|order|, i requires 0 <= i < |order| =>
      if order[i] in w.outcomes && w.outcomes[order[i]].Ran? then w.outcomes[order[i]].result.trace else [])
  }

  /** What each failed task of the order missed in its certificate. */
  ghost function Misses(w: World, order: seq<nat>): (r: seq<seq<Effect>>)
    ensures |r| == |order|
  {
    seq(|order|, i requires 0 <= i < |order| => if FailedTask(w, order[i]) then w.outcomes[order[i]].result.missing else [])
  }

  /** Visiting a task leaves the outcomes of the others alone. */
  ghost predicate SameOutcomes(a: World, b: World, order: seq<nat>) {
    forall u | u in order :: (u in a.outcomes <==> u in b.outcomes) && (u in a.outcomes ==> a.outcomes[u] == b.outcomes[u])
  }

  lemma FailuresStep(failures: seq<TaskFault>, before: World, after: World, front: seq<nat>, t: nat)
    requires FailuresExact(failures, before, front) && SameOutcomes(before, after, front) && t !in front
    requires FailedTask(after, t) ==> after.outcomes[t].result.fault.Some?
    ensures FailuresExact(
              failures + if FailedTask(after, t) then [TaskFault(t, after.outcomes[t].result.fault.value)] else [],
              after, front + [t])
  {
    forall f: TaskFault | f.task in front ensures Reported(after, f) == Reported(before, f) {}
    forall u | u in front ensures FailedTask(after, u) == FailedTask(before, u) {}
    if FailedTask(after, t) {
      assert t in front + [t];
    }
  }

  lemma ProducedStep(plan: Plan, produced: bool, before: World, after: World, front: seq<nat>, t: nat)
    requires Tasks(plan, front + [t]) && Tasks(plan, front) && t < |plan.effects|
    requires ProducedExact(plan, produced, before, front) && SameOutcomes(before, after, front)
    ensures ProducedExact(plan, produced || Produced(plan, after, t), after, front + [t])
  {
    var order := front + [t];
    forall i | 0 <= i < |front| ensures Produced(plan, after, order[i]) == Produced(plan, before, front[i]) {
      assert front[i] in front;
    }
    assert order[|front|] == t;
  }

  ghost predicate LedgerExact(plan: Plan, l: Ledger, w: World, order: seq<nat>)
    requires Tasks(plan, order)
  {
    && FailuresExact(l.failures, w, order) && ProducedExact(plan, l.produced, w, order)
    && Concatenates(l.trace, Traces(w, order)) && Concatenates(l.missing, Misses(w, order))
  }

  lemma TracesStep(l: Ledger, before: World, after: World, front: seq<nat>, t: nat)
    requires Concatenates(l.trace, Traces(before, front)) && Concatenates(l.missing, Misses(before, front))
    requires SameOutcomes(before, after, front) && t in after.outcomes
    ensures var o := after.outcomes[t];
            && Concatenates(l.trace + if o.Ran? then o.result.trace else [], Traces(after, front + [t]))
            && Concatenates(l.missing + if o.Failed() then o.result.missing else [], Misses(after, front + [t]))
  {
    var o := after.outcomes[t];
    forall u | u in front ensures FailedTask(after, u) == FailedTask(before, u) {}
    assert Traces(after, front + [t]) == Traces(before, front) + [if o.Ran? then o.result.trace else []];
    assert Misses(after, front + [t]) == Misses(before, front) + [if o.Failed() then o.result.missing else []];
    ConcatenatesNext(l.trace, Traces(before, front), if o.Ran? then o.result.trace else []);
    ConcatenatesNext(l.missing, Misses(before, front), if o.Failed() then o.result.missing else []);
  }

  /** Each list grows by what the task adds to it. */
  lemma EnteredLists(l: Ledger, t: nat, effects: seq<Effect>, o: TaskOutcome)
    requires o.Failed() ==> o.result.fault.Some?
    ensures var after := Entered(l, t, effects, o);
            && after.trace == l.trace + (if o.Ran? then o.result.trace else [])
            && after.missing == l.missing + (if o.Failed() then o.result.missing else [])
            && after.failures == l.failures + (if o.Failed() then [TaskFault(t, o.result.fault.value)] else [])
  {}

  lemma EnteredMeaning(plan: Plan, l: Ledger, before: World, after: World, front: seq<nat>, t: nat)
    requires Tasks(plan, front + [t]) && Tasks(plan, front) && t < |plan.effects|
    requires LedgerExact(plan, l, before, front) && SameOutcomes(before, after, front) && t !in front
    requires t in after.outcomes && (FailedTask(after, t) ==> after.outcomes[t].result.fault.Some?)
    ensures LedgerExact(plan, Entered(l, t, plan.effects[t], after.outcomes[t]), after, front + [t])
  {
    FailuresStep(l.failures, before, after, front, t);
    ProducedStep(plan, l.produced, before, after, front, t);
    TracesStep(l, before, after, front, t);
    EnteredLists(l, t, plan.effects[t], after.outcomes[t]);
  }

  /** The recorded failures are those of the run, and output counts as produced when some task produced it. */
  lemma {:induction false} AccumulatedMeaning(plan: Plan, memory: Allocations, order: seq<nat>)
    requires Tasks(plan, order) && Backed(memory) && Distinct(order)
    ensures LedgerExact(plan, Accumulated(plan, memory, order), RunOrder(plan, World(memory, map[]), order), order)
  {
    if order != [] {
      var n := |order| - 1;
      var front, t := order[..n], order[n];
      assert order == front + [t] && t !in front;
      AccumulatedMeaning(plan, memory, front);
      var before := RunOrder(plan, World(memory, map[]), front);
      VisitedOnce(plan, before, front, t);
      EnteredMeaning(plan, Accumulated(plan, memory, front), before, RunTask(plan, before, t), front, t);
    }
  }

  lemma VisitedOnce(plan: Plan, before: World, front: seq<nat>, t: nat)
    requires t < |plan.modules| == |plan.effects| && Backed(before.memory) && t !in front
    ensures var after := RunTask(plan, before, t);
            && SameOutcomes(before, after, front) && t in after.outcomes
            && (FailedTask(after, t) ==> after.outcomes[t].result.fault.Some?)
  {
    FailureHasFault(plan, before, t);
  }

  // ------------------------------------------------------------ cancellation

  /** Marks everything below a failed task, spreading only through tasks that are neither started nor
      already cancelled. */
  method CancelDescendants(failed: nat, successors: Table, started: array<bool>, cancelled: array<bool>)
    requires WellFormed(successors) && failed < |successors| == started.Length == cancelled.Length
    requires started != cancelled
    requires forall e | e in Pairs(successors) && cancelled[e.0] :: cancelled[e.1]
    requires started[failed] && forall x: nat | x < |successors| && ProperlyReaches(Pairs(successors), failed, x) :: !started[x]
    modifies cancelled
    ensures forall x: nat | x < |successors| ::
              cancelled[x] <==> old(cancelled[x]) || ProperlyReaches(Pairs(successors), failed, x)
  {
    var pending := [failed];
    var index := 0;
    ghost var before := cancelled[..];
    while index < |pending|
      invariant Spreading(successors, failed, before, started[..], cancelled[..], pending, index, 0)
      decreases |successors| - index
    {
      PendingBound(successors, failed, before, started[..], cancelled[..], pending, index);
      pending := SpreadRow(failed, successors, started, cancelled, pending, index, before);
      index := index + 1;
    }
    SpreadComplete(successors, failed, before, started[..], cancelled[..], pending);
  }

  /** Marks the successors of `pending[index]` and appends the newly marked ones to the work list. */
  method SpreadRow(
    failed: nat, successors: Table, started: array<bool>, cancelled: array<bool>, pending: seq<nat>, index: nat,
    ghost before: seq<bool>)
    returns (longer: seq<nat>)
    requires WellFormed(successors) && started != cancelled && index < |pending|
    requires Spreading(successors, failed, before, started[..], cancelled[..], pending, index, 0)
    modifies cancelled
    ensures index < |longer| && Spreading(successors, failed, before, started[..], cancelled[..], longer, index + 1, 0)
  {
    longer := pending;
    var current := pending[index];
    var row := successors[current];
    ghost var begun := started[..];
    for j := 0 to |row|
      invariant index < |longer| && longer[index] == current && started[..] == begun
      invariant Spreading(successors, failed, before, begun, cancelled[..], longer, index, j)
    {
      var next := row[j];
      ghost var marked := cancelled[..];
      SpreadStep(successors, failed, before, begun, marked, longer, index, j);
      if !started[next] && !cancelled[next] {
        cancelled[next] := true;
        assert cancelled[..] == marked[next := true];
        longer := longer + [next];
      }
    }
    RowSpread(successors, failed, before, begun, cancelled[..], longer, index);
  }

  lemma RowSpread(
    successors: Table, failed: nat, before: seq<bool>, started: seq<bool>, cancelled: seq<bool>, pending: seq<nat>, index: nat)
    requires index < |pending| && |successors| == |started| && pending[index] < |successors|
    requires Spreading(successors, failed, before, started, cancelled, pending, index, |successors[pending[index]]|)
    ensures Spreading(successors, failed, before, started, cancelled, pending, index + 1, 0)
  {}

  /** The rows of `pending[..index]` and the first `j` entries of the next row have been spread to. */
  ghost predicate Spreading(
    successors: Table, failed: nat, before: seq<bool>, started: seq<bool>, cancelled: seq<bool>,
    pending: seq<nat>, index: nat, j: nat)
  {
    && |before| == |started| == |cancelled| == |successors|
    && index <= |pending| && pending != [] && pending[0] == failed < |successors| && started[failed]
    && Distinct(pending)
    && (forall k | 1 <= k < |pending| ::
          pending[k] < |successors| && !started[pending[k]] && ProperlyReaches(Pairs(successors), failed, pending[k]))
    && (forall x: nat | x < |successors| :: cancelled[x] <==> before[x] || x in pending[1..])
    && (forall k | 0 <= k < index :: AllMarked(cancelled, started, successors[pending[k]], |successors[pending[k]]|))
    && (index < |pending| ==> j <= |successors[pending[index]]| && AllMarked(cancelled, started, successors[pending[index]], j))
    && (index == |pending| ==> j == 0)
  }

  ghost predicate AllMarked(cancelled: seq<bool>, started: seq<bool>, row: seq<nat>, count: nat) {
    forall k | 0 <= k < count && k < |row| && row[k] < |cancelled| && row[k] < |started| :: cancelled[row[k]] || started[row[k]]
  }

  lemma PendingBound(
    successors: Table, failed: nat, before: seq<bool>, started: seq<bool>, cancelled: seq<bool>,
    pending: seq<nat>, index: nat)
    requires Spreading(successors, failed, before, started, cancelled, pending, index, 0)
    ensures index <= |pending| <= |successors|
  {
    DistinctBelow(|successors|, pending);
  }

  lemma SpreadStep(
    successors: Table, failed: nat, before: seq<bool>, started: seq<bool>, cancelled: seq<bool>,
    pending: seq<nat>, index: nat, j: nat)
    requires WellFormed(successors)
    requires Spreading(successors, failed, before, started, cancelled, pending, index, j)
    requires index < |pending| && j < |successors[pending[index]]|
    ensures var next := successors[pending[index]][j];
            && next < |successors|
            && (if started[next] || cancelled[next] then
                  Spreading(successors, failed, before, started, cancelled, pending, index, j + 1)
                else
                  Spreading(successors, failed, before, started, cancelled[next := true], pending + [next], index, j + 1))
  {
    var current := pending[index];
    var next := successors[current][j];
    if !started[next] && !cancelled[next] {
      PairsMember(successors, current, next);
      assert (current, next) in Pairs(successors);
      ReachesAfterEdge(Pairs(successors), failed, current, next);
      var longer, marked := pending + [next], cancelled[next := true];
      assert longer[1..] == pending[1..] + [next];
      assert next !in pending;
      forall k | 0 <= k < index ensures AllMarked(marked, started, successors[longer[k]], |successors[longer[k]]|) {
        assert AllMarked(cancelled, started, successors[pending[k]], |successors[pending[k]]|);
      }
    }
  }

  lemma ReachesAfterEdge(edges: Edges, failed: nat, current: nat, next: nat)
    requires current == failed || ProperlyReaches(edges, failed, current)
    requires (current, next) in edges
    ensures ProperlyReaches(edges, failed, next)
  {
    if current == failed {
      assert Reaches(edges, next, next);
      assert (current, next).1 == next;
    } else {
      var e :| e in edges && e.0 == failed && Reaches(edges, e.1, current);
      ReachesStep(edges, e.1, current, next);
    }
  }

  lemma SpreadComplete(
    successors: Table, failed: nat, before: seq<bool>, started: seq<bool>, cancelled: seq<bool>, pending: seq<nat>)
    requires WellFormed(successors)
    requires Spreading(successors, failed, before, started, cancelled, pending, |pending|, 0)
    requires forall e | e in Pairs(successors) && before[e.0] :: before[e.1]
    requires forall x: nat | x < |successors| && ProperlyReaches(Pairs(successors), failed, x) :: !started[x]
    ensures forall x: nat | x < |successors| ::
              cancelled[x] <==> before[x] || ProperlyReaches(Pairs(successors), failed, x)
  {
    var edges := Pairs(successors);
    forall e | e in edges && (e.0 == failed || e.0 in pending[1..]) ensures cancelled[e.1] {
      PairsMember(successors, e.0, e.1);
      var k :| 0 <= k < |pending| && pending[k] == e.0;
      assert AllMarked(cancelled, started, successors[pending[k]], |successors[pending[k]]|);
      ReachesAfterEdge(edges, failed, e.0, e.1);
    }
    forall x: nat | x < |successors| && ProperlyReaches(edges, failed, x) ensures cancelled[x] {
      var e :| e in edges && e.0 == failed && Reaches(edges, e.1, x);
      var marked := iset y: nat | y < |successors| && cancelled[y];
      assert Closed(edges, marked);
      assert e.1 in marked;
    }
  }

  // ------------------------------------------------------------ the retry loop

  /** After the tasks of `front`: the tasks marked cancelled are those below a failure, wherever they are, and the
      started ones are the rest of `front`. */
  ghost predicate Marks(edges: Edges, w: World, front: seq<nat>, started: seq<bool>, cancelled: seq<bool>) {
    && |started| == |cancelled|
    && (forall t :: t in w.outcomes <==> t in front)
    && (forall t: nat | t < |started| :: started[t] <==> t in front && !cancelled[t])
    && (forall t: nat | t < |started| :: cancelled[t] <==> BelowFailure(edges, w, t))
    && (forall t | t in front :: t < |started| && (w.outcomes[t].Cancelled? <==> cancelled[t]))
  }

  /** The first `done` tasks of `order` have been dealt with, and the state is that of their run. */
  ghost predicate Followed(
    plan: Plan, start: Allocations, order: seq<nat>, done: nat, memory: Allocations,
    started: seq<bool>, cancelled: seq<bool>, l: Ledger)
  {
    && Tasks(plan, order) && Backed(start) && done <= |order|
    && |started| == |plan.modules| && Tasks(plan, order[..done])
    && memory == RunOrder(plan, World(start, map[]), order[..done]).memory
    && l == Accumulated(plan, start, order[..done])
    && Marks(plan.edges, RunOrder(plan, World(start, map[]), order[..done]), order[..done], started, cancelled)
  }

  lemma FollowedStart(plan: Plan, start: Allocations, order: seq<nat>, none: seq<bool>)
    requires Tasks(plan, order) && Backed(start)
    requires |none| == |plan.modules| && forall t | 0 <= t < |none| :: !none[t]
    ensures Followed(plan, start, order, 0, start, none, none, EMPTY)
  {
    assert order[..0] == [];
  }

  /** The next task has been cancelled already exactly when one of its predecessors blocks it. */
  lemma NextIsCancelledExactly(
    plan: Plan, start: Allocations, order: seq<nat>, done: nat, memory: Allocations,
    started: seq<bool>, cancelled: seq<bool>, l: Ledger)
    requires Followed(plan, start, order, done, memory, started, cancelled, l) && done < |order|
    requires LinearExtension(plan.edges, |plan.modules|, order) && InRange(plan.edges, |plan.modules|)
    ensures var w := RunOrder(plan, World(start, map[]), order[..done]);
            cancelled[order[done]] <==> HasBlockedPredecessor(plan.edges, w, order[done])
  {
    var w := RunOrder(plan, World(start, map[]), order[..done]);
    var t := order[done];
    if cancelled[t] {
      var f :| FailedTask(w, f) && ProperlyReaches(plan.edges, f, t);
      LastStep(plan.edges, f, t);
      var e :| e in plan.edges && e.1 == t && Reaches(plan.edges, f, e.0);
      var i := IndexOf(|plan.modules|, order, e.0);
      assert (order[i], order[done]) in plan.edges;
      assert order[..done][i] == e.0;
      ReachesCases(plan.edges, f, e.0);
      if f != e.0 {
        assert BelowFailure(plan.edges, w, e.0);
      }
      assert Blocked(w, e.0);
    }
    if e :| e in plan.edges && e.1 == t && Blocked(w, e.0) {
      BlockedSpreads(plan.edges, w, e.0, t);
    }
  }

  lemma BlockedSpreads(edges: Edges, w: World, x: nat, t: nat)
    requires (x, t) in edges && (FailedTask(w, x) || BelowFailure(edges, w, x))
    ensures BelowFailure(edges, w, t)
  {
    if FailedTask(w, x) {
      ReachesAfterEdge(edges, x, x, t);
    } else {
      var f :| FailedTask(w, f) && ProperlyReaches(edges, f, x);
      ReachesAfterEdge(edges, f, x, t);
    }
  }

  lemma SameFailuresSameBelow(edges: Edges, a: World, b: World, t: nat)
    requires forall x :: FailedTask(a, x) <==> FailedTask(b, x)
    ensures BelowFailure(edges, a, t) <==> BelowFailure(edges, b, t)
  {}

  /** Nothing that follows a task in the order reaches back before it. */
  lemma DescendantsComeLater(edges: Edges, n: nat, order: seq<nat>, done: nat, x: nat)
    requires LinearExtension(edges, n, order) && InRange(edges, n) && done < |order|
    requires ProperlyReaches(edges, order[done], x)
    ensures x !in order[..done + 1]
  {
    if x in order[..done + 1] {
      var i :| 0 <= i < done + 1 && order[..done + 1][i] == x;
      ProperlyReachesImpliesReaches(edges, order[done], x);
      ReachesRunsForward(edges, n, order, done, i);
      LinearExtensionAcyclic(edges, n, order);
      AcyclicNoReturn(edges, order[done], x);
    }
  }

  lemma MarksSkip(
    edges: Edges, before: World, after: World, front: seq<nat>, t: nat, started: seq<bool>, cancelled: seq<bool>)
    requires Marks(edges, before, front, started, cancelled) && t < |started| && t !in front && cancelled[t]
    requires after.outcomes == before.outcomes[t := Cancelled]
    ensures Marks(edges, after, front + [t], started, cancelled)
  {
    forall x: nat ensures BelowFailure(edges, before, x) <==> BelowFailure(edges, after, x) {
      SameFailuresSameBelow(edges, before, after, x);
    }
  }

  ghost predicate NewlyCancelled(edges: Edges, t: nat, ok: bool, before: seq<bool>, after: seq<bool>) {
    && |after| == |before|
    && forall x: nat | x < |before| :: after[x] <==> before[x] || (!ok && ProperlyReaches(edges, t, x))
  }

  lemma MarksEnter(
    edges: Edges, before: World, after: World, front: seq<nat>, t: nat, result: ExecutionResult,
    started: seq<bool>, cancelled: seq<bool>, cancelled': seq<bool>)
    requires Marks(edges, before, front, started, cancelled) && t < |started| && t !in front && !cancelled[t]
    requires after.outcomes == before.outcomes[t := Ran(result)]
    requires forall x | x in front + [t] :: !ProperlyReaches(edges, t, x)
    requires NewlyCancelled(edges, t, result.ok, cancelled, cancelled')
    ensures Marks(edges, after, front + [t], started[t := true], cancelled')
  {
    EnteredBelow(edges, before, after, t);
  }

  /** The run of the tasks dealt with so far. */
  ghost function SoFar(plan: Plan, start: Allocations, order: seq<nat>, done: nat): (w: World)
    requires Tasks(plan, order) && Backed(start) && done <= |order|
    ensures Backed(w.memory)
  {
    RunOrder(plan, World(start, map[]), order[..done])
  }

  /** Dealing with the next task: what its visit gives, booked and marked. */
  lemma FollowedNext(
    plan: Plan, start: Allocations, order: seq<nat>, done: nat, after: World, started: seq<bool>, cancelled: seq<bool>)
    requires Tasks(plan, order) && Backed(start) && Distinct(order) && done < |order| && |started| == |plan.modules|
    requires after == RunTask(plan, SoFar(plan, start, order, done), order[done])
    requires Marks(plan.edges, after, order[..done] + [order[done]], started, cancelled)
    ensures var t := order[done];
            && t in after.outcomes && (after.outcomes[t].Failed() ==> after.outcomes[t].result.fault.Some?)
            && Followed(plan, start, order, done + 1, after.memory, started, cancelled,
                        Entered(Accumulated(plan, start, order[..done]), t, plan.effects[t], after.outcomes[t]))
  {
    NextInOrder(order, done);
    FailureHasFault(plan, SoFar(plan, start, order, done), order[done]);
  }

  lemma VisitBlocked(plan: Plan, w: World, t: nat)
    requires t < |plan.modules| == |plan.effects| && Backed(w.memory) && HasBlockedPredecessor(plan.edges, w, t)
    ensures RunTask(plan, w, t) == World(w.memory, w.outcomes[t := Cancelled])
  {}

  lemma VisitFree(plan: Plan, w: World, t: nat)
    requires t < |plan.modules| == |plan.effects| && Backed(w.memory) && !HasBlockedPredecessor(plan.edges, w, t)
    ensures var run := Execute(plan.modules[t], plan.certificate, Some(plan.effects[t]), w.memory);
            && RunTask(plan, w, t) == World(run.0, w.outcomes[t := Ran(run.1)])
            && (!run.1.ok ==> run.1.fault.Some?)
  {}

  lemma SkipCancelled(
    plan: Plan, start: Allocations, order: seq<nat>, done: nat, memory: Allocations,
    started: seq<bool>, cancelled: seq<bool>, l: Ledger)
    requires Followed(plan, start, order, done, memory, started, cancelled, l) && done < |order|
    requires LinearExtension(plan.edges, |plan.modules|, order) && InRange(plan.edges, |plan.modules|)
    requires cancelled[order[done]]
    ensures Followed(plan, start, order, done + 1, memory, started, cancelled, l)
  {
    NextIsCancelledExactly(plan, start, order, done, memory, started, cancelled, l);
    NextInOrder(order, done);
    var before, t := SoFar(plan, start, order, done), order[done];
    VisitBlocked(plan, before, t);
    var after := World(before.memory, before.outcomes[t := Cancelled]);
    MarksSkip(plan.edges, before, after, order[..done], t, started, cancelled);
    FollowedNext(plan, start, order, done, after, started, cancelled);
  }

  lemma NextInOrder(order: seq<nat>, done: nat)
    requires Distinct(order) && done < |order|
    ensures order[..done + 1] == order[..done] + [order[done]] && order[..done + 1][..done] == order[..done]
    ensures order[done] !in order[..done]
  {}

  lemma EnterTask(
    plan: Plan, start: Allocations, order: seq<nat>, done: nat, memory: Allocations,
    started: seq<bool>, cancelled: seq<bool>, l: Ledger, cancelled': seq<bool>)
    requires Followed(plan, start, order, done, memory, started, cancelled, l) && done < |order|
    requires LinearExtension(plan.edges, |plan.modules|, order) && InRange(plan.edges, |plan.modules|)
    requires !cancelled[order[done]] && Backed(memory)
    requires NewlyCancelled(plan.edges, order[done],
                            Execute(plan.modules[order[done]], plan.certificate, Some(plan.effects[order[done]]), memory).1.ok,
                            cancelled, cancelled')
    ensures var t := order[done];
            var run := Execute(plan.modules[t], plan.certificate, Some(plan.effects[t]), memory);
            && (!run.1.ok ==> run.1.fault.Some?)
            && Followed(plan, start, order, done + 1, run.0, started[t := true], cancelled',
                        Entered(l, t, plan.effects[t], Ran(run.1)))
  {
    NextIsCancelledExactly(plan, start, order, done, memory, started, cancelled, l);
    NextInOrder(order, done);
    var before, t := SoFar(plan, start, order, done), order[done];
    VisitFree(plan, before, t);
    var run := Execute(plan.modules[t], plan.certificate, Some(plan.effects[t]), memory);
    var after := World(run.0, before.outcomes[t := Ran(run.1)]);
    forall x | x in order[..done] + [t] ensures !ProperlyReaches(plan.edges, t, x) {
      if ProperlyReaches(plan.edges, t, x) {
        DescendantsComeLater(plan.edges, |plan.modules|, order, done, x);
      }
    }
    MarksEnter(plan.edges, before, after, order[..done], t, run.1, started, cancelled, cancelled');
    FollowedNext(plan, start, order, done, after, started[t := true], cancelled');
  }

  lemma EnteredBelow(edges: Edges, before: World, after: World, t: nat)
    requires forall x | x != t :: FailedTask(after, x) <==> FailedTask(before, x)
    requires !FailedTask(before, t)
    ensures forall x: nat :: BelowFailure(edges, after, x) <==>
              BelowFailure(edges, before, x) || (FailedTask(after, t) && ProperlyReaches(edges, t, x))
  {
    forall x: nat ensures BelowFailure(edges, after, x) <==>
      BelowFailure(edges, before, x) || (FailedTask(after, t) && ProperlyReaches(edges, t, x))
    {
      if BelowFailure(edges, before, x) {
        var f :| FailedTask(before, f) && ProperlyReaches(edges, f, x);
        assert FailedTask(after, f);
      }
      if f :| FailedTask(after, f) && ProperlyReaches(edges, f, x) && f != t {
        assert FailedTask(before, f);
      }
    }
  }

  lemma MarksClosed(edges: Edges, w: World, front: seq<nat>, started: seq<bool>, cancelled: seq<bool>)
    requires Marks(edges, w, front, started, cancelled) && InRange(edges, |started|)
    ensures forall e | e in edges && cancelled[e.0] :: cancelled[e.1]
  {
    forall e | e in edges && cancelled[e.0] ensures cancelled[e.1] {
      assert (e.0, e.1) in edges;
      BlockedSpreads(edges, w, e.0, e.1);
    }
  }

  /** What cancelling below the task just entered relies on. */
  lemma ReadyToCancel(
    plan: Plan, start: Allocations, order: seq<nat>, done: nat, memory: Allocations,
    started: seq<bool>, cancelled: seq<bool>, l: Ledger)
    requires Followed(plan, start, order, done, memory, started, cancelled, l) && done < |order|
    requires LinearExtension(plan.edges, |plan.modules|, order) && InRange(plan.edges, |plan.modules|)
    ensures forall e | e in plan.edges && cancelled[e.0] :: cancelled[e.1]
    ensures forall x: nat | x < |started| && ProperlyReaches(plan.edges, order[done], x) :: !started[order[done] := true][x]
  {
    MarksClosed(plan.edges, RunOrder(plan, World(start, map[]), order[..done]), order[..done], started, cancelled);
    NextInOrder(order, done);
    forall x: nat | x < |started| && ProperlyReaches(plan.edges, order[done], x)
      ensures !started[order[done] := true][x]
    {
      DescendantsComeLater(plan.edges, |plan.modules|, order, done, x);
      assert x !in order[..done] + [order[done]];
    }
  }

  /** A task is past exactly when it is started or cancelled; the next one is never started yet. */
  lemma PastTasksAreMarked(
    plan: Plan, start: Allocations, order: seq<nat>, done: nat, memory: Allocations,
    started: seq<bool>, cancelled: seq<bool>, l: Ledger, i: nat)
    requires Followed(plan, start, order, done, memory, started, cancelled, l) && Distinct(order)
    requires i < |order| && i <= done
    ensures order[i] < |started|
    ensures i < done ==> started[order[i]] || cancelled[order[i]]
    ensures i == done ==> !started[order[i]]
  {
    if i < done {
      assert order[..done][i] == order[i];
    } else {
      NextInOrder(order, done);
    }
  }

  class ScheduleRun {
    const plan: Plan
    const started: array<bool>
    const cancelled: array<bool>
    var trace: seq<Effect>
    var missing: seq<Effect>
    var failures: seq<TaskFault>
    var produced: bool

    constructor (plan: Plan)
      ensures this.plan == plan && fresh(started) && fresh(cancelled) && started != cancelled
      ensures started.Length == cancelled.Length == |plan.modules| && Book() == EMPTY
      ensures forall t | 0 <= t < |plan.modules| :: !started[t] && !cancelled[t]
    {
      this.plan := plan;
      started := new bool[|plan.modules|](_ => false);
      cancelled := new bool[|plan.modules|](_ => false);
      trace, missing, failures, produced := [], [], [], false;
    }

    function Book(): Ledger
      reads this
    {
      Ledger(trace, missing, failures, produced)
    }

    ghost predicate At(start: Allocations, order: seq<nat>, done: nat, arena: Arena)
      reads this, started, cancelled, arena
    {
      && started != cancelled && Backed(arena.allocations)
      && Followed(plan, start, order, done, arena.allocations, started[..], cancelled[..], Book())
    }

    /** The order and the successor table are those of the plan's edges. */
    ghost predicate Schedules(order: seq<nat>, successors: Table) {
      && LinearExtension(plan.edges, |plan.modules|, order) && InRange(plan.edges, |plan.modules|)
      && WellFormed(successors) && |successors| == |plan.modules| && Pairs(successors) == plan.edges
    }

    /** Enters the remaining tasks in order until one fails, and then cancels everything below it. */
    method Pass(order: seq<nat>, successors: Table, arena: Arena, ghost start: Allocations, ghost done: nat)
      returns (progress: bool, ghost done': nat)
      requires At(start, order, done, arena) && Schedules(order, successors)
      modifies this, started, cancelled, arena`allocations
      ensures At(start, order, done', arena) && done <= done' <= |order|
      ensures if progress then done < done' else done' == |order|
    {
      progress, done' := false, done;
      for i := 0 to |order|
        invariant i <= done' && done <= done' <= |order| && (progress ==> done < done')
        invariant At(start, order, done', arena)
      {
        var entered, ok;
        entered, ok, done' := Step(order, i, successors, arena, start, done');
        progress := progress || entered;
        if !ok {
          break;
        }
      }
    }

    /** Enters the task at position `i` unless it was started or cancelled before. */
    method Step(order: seq<nat>, i: nat, successors: Table, arena: Arena, ghost start: Allocations, ghost done: nat)
      returns (entered: bool, ok: bool, ghost done': nat)
      requires At(start, order, done, arena) && Schedules(order, successors) && i < |order| && i <= done
      modifies this, started, cancelled, arena`allocations
      ensures At(start, order, done', arena) && i < done' && done <= done' <= |order|
      ensures entered ==> done < done'
      ensures !ok ==> entered
    {
      var t := order[i];
      PastTasksAreMarked(plan, start, order, done, arena.allocations, started[..], cancelled[..], Book(), i);
      if started[t] || cancelled[t] {
        if i == done {
          SkipCancelled(plan, start, order, done, arena.allocations, started[..], cancelled[..], Book());
        }
        return false, true, if i == done then done + 1 else done;
      }
      entered, done' := true, done + 1;
      ok := Enter(t, successors, arena, order, start, done);
    }

    /** Repeats passes until one makes no progress; then nothing is left. */
    method RunToCompletion(order: seq<nat>, successors: Table, arena: Arena, ghost start: Allocations)
      requires At(start, order, 0, arena) && Schedules(order, successors)
      modifies this, started, cancelled, arena`allocations
      ensures At(start, order, |order|, arena)
    {
      ghost var done := 0;
      var progress := true;
      while progress
        invariant done <= |order| && At(start, order, done, arena)
        invariant !progress ==> done == |order|
        decreases |order| - done, progress
      {
        progress, done := Pass(order, successors, arena, start, done);
      }
    }

    /** Enters one task; if it fails, records the failure and cancels its descendants. */
    method Enter(
      t: nat, successors: Table, arena: Arena, ghost order: seq<nat>, ghost start: Allocations, ghost done: nat)
      returns (ok: bool)
      requires At(start, order, done, arena) && done < |order| && t == order[done]
      requires Schedules(order, successors) && !started[t] && !cancelled[t]
      modifies this, started, cancelled, arena`allocations
      ensures At(start, order, done + 1, arena)
    {
      ghost var memory, wasStarted, wasCancelled, book := arena.allocations, started[..], cancelled[..], Book();
      ReadyToCancel(plan, start, order, done, memory, wasStarted, wasCancelled, book);
      started[t] := true;
      assert started[..] == wasStarted[t := true];
      var result := ExecuteModule(plan.modules[t], arena, plan.certificate, Some(plan.effects[t]));
      FaultOfFailure(plan.modules[t], plan.certificate, Some(plan.effects[t]), memory);
      Record(t, result, successors);
      EnterTask(plan, start, order, done, memory, wasStarted, wasCancelled, book, cancelled[..]);
      ok := result.ok;
    }

    /** Adds one task's result to the books; a failure also cancels the task's descendants. */
    method Record(t: nat, result: ExecutionResult, successors: Table)
      requires t < |plan.effects| && (!result.ok ==> result.fault.Some?) && started != cancelled
      requires WellFormed(successors) && t < |successors| == started.Length == cancelled.Length
      requires forall e | e in Pairs(successors) && cancelled[e.0] :: cancelled[e.1]
      requires started[t] && forall x: nat | x < |successors| && ProperlyReaches(Pairs(successors), t, x) :: !started[x]
      modifies this, cancelled
      ensures Book() == Entered(old(Book()), t, plan.effects[t], Ran(result))
      ensures NewlyCancelled(Pairs(successors), t, result.ok, old(cancelled[..]), cancelled[..])
    {
      trace := trace + result.trace;
      if result.ok {
        produced := produced || exists e | e in plan.effects[t] :: e.access != Read;
      } else {
        missing := missing + result.missing;
        failures := failures + [TaskFault(t, result.fault.value)];
        produced := produced || result.poison.PartiallyProduced?;
        CancelDescendants(t, successors, started, cancelled);
      }
    }
  }

  lemma FaultOfFailure(m: Module, certificate: Option<seq<Effect>>, sealed: Option<seq<Effect>>, memory: Allocations)
    requires Backed(memory)
    ensures var result := Execute(m, certificate, sealed, memory).1;
            !result.ok ==> result.fault.Some?
  {}

  // ------------------------------------------------------------ the whole submission

  /** The failed task no other failed task precedes in the canonical order. */
  ghost predicate FirstFailure(w: World, order: seq<nat>, t: nat) {
    exists i :: 0 <= i < |order| && order[i] == t && FailedTask(w, t) && forall j | 0 <= j < i :: !FailedTask(w, order[j])
  }

  /** What a submission reports about a run, but for the lists that depend on the order in which tasks were entered. */
  ghost predicate ReportExact(plan: Plan, w: World, order: seq<nat>, r: SubmissionResult) {
    && (r.ok <==> forall t: nat | t < |plan.modules| :: !FailedTask(w, t))
    && r.outputsValid == r.ok
    && (r.ok ==> r.poison.Valid? && r.fault.None?)
    && (!r.ok ==>
          && r.fault.Some? && Reported(w, r.fault.value) && FirstFailure(w, order, r.fault.value.task)
          && r.poison == if SomeProduced(plan, w) then PartiallyProduced else Poisoned)
  }

  /** The trace holds the trace of every task that ran, in the order in which tasks were entered, and nothing else; the
      uncovered effects are those of the failed tasks, in that order. */
  ghost predicate TraceExact(w: World, entered: seq<nat>, r: SubmissionResult) {
    Concatenates(r.trace, Traces(w, entered)) && Concatenates(r.missing, Misses(w, entered))
  }

  ghost predicate SomeProduced(plan: Plan, w: World) {
    exists t: nat :: t < |plan.modules| && t < |plan.effects| && Produced(plan, w, t)
  }

  /** The failure of least rank in the canonical order. */
  method PrimaryFault(failures: seq<TaskFault>, order: seq<nat>) returns (primary: TaskFault)
    requires failures != [] && Distinct(order) && forall f | f in failures :: f.task in order && f.task < |order|
    requires forall t | t in order :: t < |order|
    ensures primary in failures
    ensures exists i :: 0 <= i < |order| && order[i] == primary.task &&
                        forall f, j | f in failures && 0 <= j < i :: order[j] != f.task
  {
    var rank := new nat[|order|](_ => 0);
    for i := 0 to |order|
      invariant forall j | 0 <= j < i :: order[j] < |order| && rank[order[j]] == j
    {
      assert order[i] in order;
      rank[order[i]] := i;
    }
    primary := failures[0];
    for k := 1 to |failures|
      invariant primary in failures
      invariant forall m | 0 <= m < k :: rank[primary.task] <= rank[failures[m].task]
    {
      if rank[failures[k].task] < rank[primary.task] {
        primary := failures[k];
      }
    }
    var i :| 0 <= i < |order| && order[i] == primary.task;
    forall f, j | f in failures && 0 <= j < i ensures order[j] != f.task {
      var m :| 0 <= m < |failures| && failures[m] == f;
      assert rank[primary.task] <= rank[failures[m].task];
    }
  }

  lemma OrderMembers(n: nat, order: seq<nat>)
    requires IsOrdering(n, order)
    ensures forall t: nat :: t in order <==> t < n
  {
    DistinctBelow(n, order);
  }

  lemma Completed(
    plan: Plan, start: Allocations, order: seq<nat>, memory: Allocations,
    started: seq<bool>, cancelled: seq<bool>, l: Ledger)
    requires IsOrdering(|plan.modules|, order)
    requires Followed(plan, start, order, |order|, memory, started, cancelled, l)
    ensures var w := RunOrder(plan, World(start, map[]), order);
            && memory == w.memory && l == Accumulated(plan, start, order)
            && |started| == |cancelled| == |plan.modules|
            && forall t: nat | t < |plan.modules| ::
                 t in w.outcomes && started[t] == w.outcomes[t].Ran? && cancelled[t] == w.outcomes[t].Cancelled?
  {
    assert order[..|order|] == order;
    OrderMembers(|plan.modules|, order);
  }

  method Conclude(plan: Plan, run: ScheduleRun, order: seq<nat>, ghost w: World, ghost entered: seq<nat>)
    returns (r: SubmissionResult)
    requires IsOrdering(|plan.modules|, order) && IsOrdering(|plan.modules|, entered) && |plan.effects| == |plan.modules|
    requires LedgerExact(plan, run.Book(), w, entered)
    ensures ReportExact(plan, w, order, r) && TraceExact(w, entered, r)
  {
    OrderMembers(|plan.modules|, order);
    OrderMembers(|plan.modules|, entered);
    ProducedSomewhere(plan, run.produced, w, entered);
    if run.failures == [] {
      return SubmissionResult(true, true, Valid, run.trace, run.missing, None);
    }
    var primary := PrimaryFault(run.failures, order);
    r := SubmissionResult(false, false, if run.produced then PartiallyProduced else Poisoned,
                          run.trace, run.missing, Some(primary));
    assert run.failures[0] in run.failures;
    assert FirstFailure(w, order, primary.task) by {
      FirstOfAll(run.failures, w, order, entered, primary);
    }
  }

  lemma FirstOfAll(failures: seq<TaskFault>, w: World, order: seq<nat>, entered: seq<nat>, primary: TaskFault)
    requires FailuresExact(failures, w, entered) && primary in failures
    requires forall t | t in order :: t in entered
    requires exists i :: 0 <= i < |order| && order[i] == primary.task &&
                         forall f, j | f in failures && 0 <= j < i :: order[j] != f.task
    ensures FirstFailure(w, order, primary.task)
  {
    var i :| 0 <= i < |order| && order[i] == primary.task && forall f, j | f in failures && 0 <= j < i :: order[j] != f.task;
    forall j | 0 <= j < i ensures !FailedTask(w, order[j]) {
      FailedIsListed(failures, w, entered, order[j]);
    }
  }

  lemma FailedIsListed(failures: seq<TaskFault>, w: World, entered: seq<nat>, t: nat)
    requires FailuresExact(failures, w, entered) && t in entered
    ensures FailedTask(w, t) ==> exists f | f in failures :: f.task == t
  {
    if FailedTask(w, t) {
      var f := TaskFault(t, w.outcomes[t].result.fault.value);
      assert Reported(w, f) && f in failures;
    }
  }

  lemma ProducedSomewhere(plan: Plan, produced: bool, w: World, entered: seq<nat>)
    requires Tasks(plan, entered) && ProducedExact(plan, produced, w, entered) && forall t | t in entered :: t < |plan.modules|
    requires forall t: nat | t < |plan.modules| :: t in entered
    ensures produced <==> SomeProduced(plan, w)
  {
    if SomeProduced(plan, w) {
      var t: nat :| t < |plan.modules| && t < |plan.effects| && Produced(plan, w, t);
      assert t in entered;
      var i :| 0 <= i < |entered| && entered[i] == t;
    }
  }

  /** The arena and the run are those of `order`. */
  ghost predicate RunMeans(plan: Plan, start: Allocations, order: seq<nat>, memory: Allocations, started: seq<bool>, cancelled: seq<bool>) {
    && Tasks(plan, order) && Backed(start)
    && var w := RunOrder(plan, World(start, map[]), order);
       && memory == w.memory
       && |started| == |cancelled| == |plan.modules|
       && forall t: nat | t < |plan.modules| ::
            t in w.outcomes && started[t] == w.outcomes[t].Ran? && cancelled[t] == w.outcomes[t].Cancelled?
  }

  method RunInOrder(plan: Plan, order: seq<nat>, successors: Table, arena: Arena) returns (run: ScheduleRun)
    requires plan.Sealed() && Backed(arena.allocations) && LinearExtension(plan.edges, |plan.modules|, order)
    requires WellFormed(successors) && |successors| == |plan.modules| && Pairs(successors) == plan.edges
    modifies arena`allocations
    ensures fresh(run) && run.plan == plan
    ensures RunMeans(plan, old(arena.allocations), order, arena.allocations, run.started[..], run.cancelled[..])
    ensures run.Book() == Accumulated(plan, old(arena.allocations), order)
  {
    ghost var start := arena.allocations;
    run := new ScheduleRun(plan);
    assert run.started[..] == run.cancelled[..];
    FollowedStart(plan, start, order, run.started[..]);
    run.RunToCompletion(order, successors, arena, start);
    Completed(plan, start, order, arena.allocations, run.started[..], run.cancelled[..], run.Book());
  }

  /** Runs a derived schedule.  Although tasks are entered in component-major wave order, with passes repeated
      after each failure, the arena's bytes and the started, cancelled and failed tasks are exactly those of
      running the canonical order, and so of any linear extension of the edges. */
  method SubmitSchedule(plan: Plan, schedule: Schedule, arena: Arena, ghost facts: Facts)
    returns (run: ScheduleRun, r: SubmissionResult)
    requires plan.Sealed() && Backed(arena.allocations)
    requires facts.effects == plan.effects && ScheduleExact(plan.edges, facts, schedule.order, schedule)
    requires IsCanonical(plan.edges, |plan.modules|, schedule.order)
    modifies arena`allocations
    ensures fresh(run)
    ensures RunMeans(plan, old(arena.allocations), schedule.order, arena.allocations, run.started[..], run.cancelled[..])
    ensures ReportExact(plan, RunOrder(plan, World(old(arena.allocations), map[]), schedule.order), schedule.order, r)
    ensures TraceExact(RunOrder(plan, World(old(arena.allocations), map[]), schedule.order),
                       ComponentMajorOrder(schedule.components), r)
  {
    ghost var start := arena.allocations;
    var n := |plan.modules|;
    var order := ScheduledTasks(schedule.components);
    ComponentMajorIsLinearExtension(plan.edges, n, schedule.components);
    GreedyRespects(plan.edges, n, schedule.order);
    run := RunInOrder(plan, order, schedule.successors, arena);
    AccumulatedMeaning(plan, start, order);
    AnyLinearExtensionMeansTheSame(plan, World(start, map[]), order, schedule.order);
    r := Conclude(plan, run, schedule.order, RunOrder(plan, World(start, map[]), schedule.order), order);
  }
}
