/** What running a task set means: each task runs at most once, and a task below a
    failed one never runs.  The meaning does not depend on which linear extension of
    the dependency edges is chosen. */
module ScheduleSemantics {
  import opened Ir
  import opened Arenas
  import opened Wrappers
  import opened EffectConflicts
  import opened Interpreter
  import opened Footprint
  import opened Digraph
  import opened EffectGraphs

  /** The sealed facts an execution consumes: one module per task and its effects, an
      optional certificate, and the structural edges. */
  datatype Plan = Plan(modules: seq<Module>, effects: seq<seq<Effect>>, certificate: Option<seq<Effect>>, edges: Edges) {
    /** Effects are the modules' own, and every conflicting pair is ordered by a path. */
    ghost predicate Sealed() {
      && |effects| == |modules|
      && (forall t: nat | t < |modules| :: effects[t] == InstantiatedEffects(modules[t]))
      && InRange(edges, |modules|)
      && ConflictsOrdered(edges, effects)
    }
  }

  datatype TaskOutcome = Ran(result: ExecutionResult) | Cancelled {
    /** Successors of a task with this outcome do not run. */
    predicate Blocks() {
      Cancelled? || !result.ok
    }

    predicate Failed() {
      Ran? && !result.ok
    }
  }

  datatype World = World(memory: Allocations, outcomes: map<nat, TaskOutcome>)

  ghost predicate Blocked(w: World, t: nat) {
    t in w.outcomes && w.outcomes[t].Blocks()
  }

  ghost predicate HasBlockedPredecessor(edges: Edges, w: World, t: nat) {
    exists e | e in edges :: e.1 == t && Blocked(w, e.0)
  }

  /** Visits one task: it runs unless a direct predecessor failed or was cancelled. */
  ghost function RunTask(plan: Plan, w: World, t: nat): (r: World)
    requires t < |plan.modules| == |plan.effects| && Backed(w.memory)
    ensures Backed(r.memory)
  {
    Visit(plan, w, t, HasBlockedPredecessor(plan.edges, w, t))
  }

  ghost function Visit(plan: Plan, w: World, t: nat, blocked: bool): (r: World)
    requires t < |plan.modules| == |plan.effects| && Backed(w.memory)
    ensures Backed(r.memory)
  {
    if blocked then w.(outcomes := w.outcomes[t := Cancelled])
    else
      var run := Execute(plan.modules[t], plan.certificate, Some(plan.effects[t]), w.memory);
      World(run.0, w.outcomes[t := Ran(run.1)])
  }

  ghost predicate Tasks(plan: Plan, order: seq<nat>) {
    |plan.modules| == |plan.effects| && forall i | 0 <= i < |order| :: order[i] < |plan.modules|
  }

  ghost function RunOrder(plan: Plan, w: World, order: seq<nat>): (r: World)
    requires Tasks(plan, order) && Backed(w.memory)
    ensures Backed(r.memory)
  {
    if order == [] then w
    else
      RunTask(plan, RunOrder(plan, w, order[..|order| - 1]), order[|order| - 1])
  }

  lemma {:induction false} RunOrderConcat(plan: Plan, w: World, a: seq<nat>, b: seq<nat>)
    requires Tasks(plan, a) && Tasks(plan, b) && Backed(w.memory)
    ensures Tasks(plan, a + b)
    ensures RunOrder(plan, w, a + b) == RunOrder(plan, RunOrder(plan, w, a), b)
  {
    if b == [] {
      assert a + b == a;
    } else {
      var n := |b| - 1;
      RunOrderConcat(plan, w, a, b[..n]);
      assert (a + b)[..|a + b| - 1] == a + b[..n];
    }
  }

  lemma RunSingle(plan: Plan, w: World, t: nat)
    requires Tasks(plan, [t]) && Backed(w.memory)
    ensures RunOrder(plan, w, [t]) == RunTask(plan, w, t)
  {
    assert [t][..0] == [];
  }

  /** An edge in either direction, or a conflict: the pairs whose order matters. */
  ghost predicate Dependent(plan: Plan, x: nat, y: nat)
    requires x < |plan.effects| && y < |plan.effects|
  {
    (x, y) in plan.edges || (y, x) in plan.edges || TasksConflict(plan.effects[x], plan.effects[y])
  }

  /** Two tasks that are not dependent can be visited in either order. */
  lemma IndependentTasksCommute(plan: Plan, w: World, t: nat, u: nat)
    requires plan.Sealed() && t < |plan.modules| && u < |plan.modules| && t != u
    requires Backed(w.memory) && !Dependent(plan, t, u)
    ensures RunTask(plan, RunTask(plan, w, t), u) == RunTask(plan, RunTask(plan, w, u), t)
  {
    var wt, wu := RunTask(plan, w, t), RunTask(plan, w, u);
    BlockedUnaffected(plan, w, wt, t, u);
    BlockedUnaffected(plan, w, wu, u, t);
    VisitsCommute(plan, w, t, u, HasBlockedPredecessor(plan.edges, w, t), HasBlockedPredecessor(plan.edges, w, u));
  }

  lemma VisitsCommute(plan: Plan, w: World, t: nat, u: nat, blockedT: bool, blockedU: bool)
    requires t < |plan.modules| == |plan.effects| && u < |plan.modules| && t != u && Backed(w.memory)
    requires !TasksConflict(InstantiatedEffects(plan.modules[t]), InstantiatedEffects(plan.modules[u]))
    ensures Visit(plan, Visit(plan, w, t, blockedT), u, blockedU) == Visit(plan, Visit(plan, w, u, blockedU), t, blockedT)
  {
    ExecutionsCommute(plan.modules[t], plan.modules[u], plan.certificate,
                      Some(plan.effects[t]), Some(plan.effects[u]), w.memory);
    var ranT: TaskOutcome := if blockedT then Cancelled else
      Ran(Execute(plan.modules[t], plan.certificate, Some(plan.effects[t]), w.memory).1);
    var ranU: TaskOutcome := if blockedU then Cancelled else
      Ran(Execute(plan.modules[u], plan.certificate, Some(plan.effects[u]), w.memory).1);
    var left, right := w.outcomes[t := ranT], w.outcomes[u := ranU];
    assert left[u := ranU] == right[t := ranT];
  }

  lemma BlockedUnaffected(plan: Plan, w: World, after: World, t: nat, u: nat)
    requires (t, u) !in plan.edges
    requires forall x | x != t :: (x in after.outcomes <==> x in w.outcomes)
    requires forall x | x != t && x in w.outcomes :: after.outcomes[x] == w.outcomes[x]
    ensures HasBlockedPredecessor(plan.edges, after, u) == HasBlockedPredecessor(plan.edges, w, u)
  {
    forall e | e in plan.edges && e.1 == u ensures Blocked(after, e.0) == Blocked(w, e.0) {
      assert e == (e.0, u);
    }
  }

  lemma {:induction false} MoveToFront(plan: Plan, w: World, before: seq<nat>, t: nat)
    requires plan.Sealed() && Tasks(plan, before) && t < |plan.modules| && Backed(w.memory)
    requires forall i | 0 <= i < |before| :: before[i] != t && !Dependent(plan, t, before[i])
    ensures RunTask(plan, RunOrder(plan, w, before), t) == RunOrder(plan, RunTask(plan, w, t), before)
  {
    if before != [] {
      var n := |before| - 1;
      var rest, u := before[..n], before[n];
      MoveToFront(plan, w, rest, t);
      IndependentTasksCommute(plan, RunOrder(plan, w, rest), t, u);
    }
  }

  ghost predicate Before(order: seq<nat>, x: nat, y: nat) {
    exists i, j | 0 <= i < j < |order| :: order[i] == x && order[j] == y
  }

  /** No dependent pair appears in opposite orders. */
  ghost predicate OrderedAlike(plan: Plan, a: seq<nat>, b: seq<nat>)
    requires Tasks(plan, a) && Tasks(plan, b)
  {
    forall i, j | 0 <= i < j < |a| && Dependent(plan, a[i], a[j]) :: !Before(b, a[j], a[i])
  }

  /** Orders of the same tasks that order dependent pairs alike have the same meaning. */
  lemma {:induction false} EquivalentOrders(plan: Plan, w: World, a: seq<nat>, b: seq<nat>)
    requires plan.Sealed() && Tasks(plan, a) && Tasks(plan, b) && Backed(w.memory)
    requires Distinct(a) && Distinct(b) && multiset(a) == multiset(b)
    requires OrderedAlike(plan, a, b)
    ensures RunOrder(plan, w, a) == RunOrder(plan, w, b)
    decreases |a|
  {
    if a == [] {
      assert |multiset(b)| == 0;
    } else {
      assert a[0] in multiset(a);
      assert a[0] in multiset(b);
      var p :| 0 <= p < |b| && b[p] == a[0];
      FrontIsIndependent(plan, a, b, p);
      PullToFront(plan, w, b, p);
      SplitFront(plan, w, a);
      RemovalKeepsOrder(plan, a, b, p);
      RemovalKeepsTasks(a, b, p);
      EquivalentOrders(plan, RunTask(plan, w, a[0]), a[1..], Without(b, p));
    }
  }

  function Without(order: seq<nat>, p: nat): seq<nat>
    requires p < |order|
  {
    order[..p] + order[p + 1..]
  }

  lemma SplitFront(plan: Plan, w: World, a: seq<nat>)
    requires Tasks(plan, a) && Backed(w.memory) && a != []
    ensures RunOrder(plan, w, a) == RunOrder(plan, RunTask(plan, w, a[0]), a[1..])
  {
    assert a == [a[0]] + a[1..];
    RunSingle(plan, w, a[0]);
    RunOrderConcat(plan, w, [a[0]], a[1..]);
  }

  lemma PullToFront(plan: Plan, w: World, b: seq<nat>, p: nat)
    requires plan.Sealed() && Tasks(plan, b) && Backed(w.memory) && p < |b|
    requires forall i | 0 <= i < p :: b[i] != b[p] && !Dependent(plan, b[p], b[i])
    ensures RunOrder(plan, w, b) == RunOrder(plan, RunTask(plan, w, b[p]), Without(b, p))
  {
    var t, before, after := b[p], b[..p], b[p + 1..];
    assert b == (before + [t]) + after;
    RunOrderConcat(plan, w, before + [t], after);
    RunOrderConcat(plan, w, before, [t]);
    RunSingle(plan, RunOrder(plan, w, before), t);
    MoveToFront(plan, w, before, t);
    RunOrderConcat(plan, RunTask(plan, w, t), before, after);
  }

  lemma FrontIsIndependent(plan: Plan, a: seq<nat>, b: seq<nat>, p: nat)
    requires plan.Sealed() && Tasks(plan, a) && Tasks(plan, b) && OrderedAlike(plan, a, b)
    requires Distinct(a) && Distinct(b) && multiset(a) == multiset(b)
    requires a != [] && p < |b| && b[p] == a[0]
    ensures forall i | 0 <= i < p :: b[i] != b[p] && !Dependent(plan, b[p], b[i])
  {
    forall i | 0 <= i < p ensures b[i] != b[p] && !Dependent(plan, b[p], b[i]) {
      InOtherOrder(a, b, a[0], i, p);
      var k :| 0 < k < |a| && a[k] == b[i];
      assert Before(b, a[k], a[0]);
    }
  }

  lemma RemovalKeepsTasks(a: seq<nat>, b: seq<nat>, p: nat)
    requires multiset(a) == multiset(b) && a != [] && p < |b| && b[p] == a[0]
    ensures multiset(a[1..]) == multiset(Without(b, p))
  {
    assert a == [a[0]] + a[1..];
    assert b == b[..p] + ([b[p]] + b[p + 1..]);
    assert multiset([b[p]] + b[p + 1..]) == multiset{b[p]} + multiset(b[p + 1..]);
    assert multiset(a) == multiset{a[0]} + multiset(a[1..]);
    assert multiset(a[1..]) == multiset(b) - multiset{b[p]};
  }

  lemma InOtherOrder(a: seq<nat>, b: seq<nat>, t: nat, i: nat, p: nat)
    requires Distinct(a) && Distinct(b) && multiset(a) == multiset(b) && a != [] && t == a[0]
    requires i < p < |b| && b[p] == t
    ensures exists k :: 0 < k < |a| && a[k] == b[i]
  {
    assert b[i] in multiset(b);
    assert b[i] in multiset(a);
    var k :| 0 <= k < |a| && a[k] == b[i];
  }

  lemma RemovalKeepsOrder(plan: Plan, a: seq<nat>, b: seq<nat>, p: nat)
    requires Tasks(plan, a) && Tasks(plan, b) && a != [] && p < |b|
    requires Distinct(b) && OrderedAlike(plan, a, b)
    ensures var b' := Without(b, p);
            Tasks(plan, a[1..]) && Tasks(plan, b') && Distinct(b') && OrderedAlike(plan, a[1..], b')
  {
    var b' := Without(b, p);
    var place := (i: int) => if i < p then i else i + 1;
    assert forall i | 0 <= i < |b'| :: b'[i] == b[place(i)];
    var a' := a[1..];
    forall i, j | 0 <= i < j < |a'| && Dependent(plan, a'[i], a'[j]) ensures !Before(b', a'[j], a'[i]) {
      assert a'[i] == a[i + 1] && a'[j] == a[j + 1];
      assert !Before(b, a[j + 1], a[i + 1]);
      forall x, y | 0 <= x < y < |b'| ensures !(b'[x] == a'[j] && b'[y] == a'[i]) {
        assert 0 <= place(x) < place(y) < |b|;
      }
    }
  }

  lemma LinearExtensionsOrderAlike(plan: Plan, a: seq<nat>, b: seq<nat>)
    requires plan.Sealed()
    requires LinearExtension(plan.edges, |plan.modules|, a) && LinearExtension(plan.edges, |plan.modules|, b)
    ensures OrderedAlike(plan, a, b)
  {
    var n := |plan.modules|;
    forall i, j | 0 <= i < j < n && Dependent(plan, a[i], a[j]) ensures !Before(b, a[j], a[i]) {
      forall x, y | 0 <= x < y < n ensures !(b[x] == a[j] && b[y] == a[i]) {
        if b[x] == a[j] && b[y] == a[i] {
          DependentPairForward(plan, a, i, j);
          ReachesRunsForward(plan.edges, n, b, y, x);
        }
      }
    }
  }

  lemma DependentPairForward(plan: Plan, a: seq<nat>, i: nat, j: nat)
    requires plan.Sealed() && LinearExtension(plan.edges, |plan.modules|, a)
    requires i < j < |a| && Dependent(plan, a[i], a[j])
    ensures Reaches(plan.edges, a[i], a[j])
  {
    if (a[i], a[j]) in plan.edges {
      ReachesStep(plan.edges, a[i], a[i], a[j]);
    } else if (a[j], a[i]) in plan.edges {
      assert false;
    } else {
      TasksConflictSymmetric(plan.effects[a[i]], plan.effects[a[j]]);
      assert Ordered(plan.edges, a[i], a[j]) || Ordered(plan.edges, a[j], a[i]);
      if Reaches(plan.edges, a[j], a[i]) {
        ReachesRunsForward(plan.edges, |plan.modules|, a, j, i);
      }
    }
  }

  lemma OrderingsHaveSameTasks(n: nat, a: seq<nat>, b: seq<nat>)
    requires IsOrdering(n, a) && IsOrdering(n, b)
    ensures multiset(a) == multiset(b)
  {
    forall t: nat ensures multiset(a)[t] == multiset(b)[t] {
      OrderingCounts(n, a, t);
      OrderingCounts(n, b, t);
    }
  }

  lemma OrderingCounts(n: nat, a: seq<nat>, t: nat)
    requires IsOrdering(n, a)
    ensures multiset(a)[t] == if t < n then 1 else 0
  {
    DistinctCounts(a, t);
    DistinctBelow(n, a);
    assert t < n ==> t in a;
  }

  lemma {:induction false} DistinctCounts(a: seq<nat>, t: nat)
    requires Distinct(a)
    ensures multiset(a)[t] == if t in a then 1 else 0
  {
    if a != [] {
      var front, last := a[..|a| - 1], a[|a| - 1];
      DistinctCounts(front, t);
      assert a == front + [last];
      assert multiset(a) == multiset(front) + multiset{last};
      assert last !in front;
    }
  }

  /** The scheduling theorem: any two linear extensions of the structural edges leave the
      same bytes and give every task the same outcome, faults included. */
  lemma AnyLinearExtensionMeansTheSame(plan: Plan, w: World, a: seq<nat>, b: seq<nat>)
    requires plan.Sealed() && Backed(w.memory)
    requires LinearExtension(plan.edges, |plan.modules|, a) && LinearExtension(plan.edges, |plan.modules|, b)
    ensures RunOrder(plan, w, a) == RunOrder(plan, w, b)
  {
    LinearExtensionsOrderAlike(plan, a, b);
    OrderingsHaveSameTasks(|plan.modules|, a, b);
    EquivalentOrders(plan, w, a, b);
  }

  // ------------------------------------------------------------ failure propagation

  ghost predicate FailedTask(w: World, t: nat) {
    t in w.outcomes && w.outcomes[t].Failed()
  }

  ghost predicate BelowFailure(edges: Edges, w: World, t: nat) {
    exists f :: FailedTask(w, f) && ProperlyReaches(edges, f, t)
  }

  /** Every visited task is cancelled exactly when a direct predecessor blocks it. */
  ghost predicate LocallyExact(edges: Edges, w: World, order: seq<nat>) {
    && (forall t :: t in w.outcomes <==> t in order)
    && (forall t | t in w.outcomes :: w.outcomes[t].Cancelled? <==> HasBlockedPredecessor(edges, w, t))
  }

  lemma {:induction false} RunOrderLocallyExact(plan: Plan, memory: Allocations, order: seq<nat>)
    requires Tasks(plan, order) && Backed(memory)
    requires Distinct(order) && Respects(plan.edges, order)
    ensures LocallyExact(plan.edges, RunOrder(plan, World(memory, map[]), order), order)
  {
    if order != [] {
      var n := |order| - 1;
      RunOrderLocallyExact(plan, memory, order[..n]);
      RunTaskLocallyExact(plan, RunOrder(plan, World(memory, map[]), order[..n]), order);
    }
  }

  lemma NothingAfterLast(edges: Edges, order: seq<nat>, x: nat)
    requires Respects(edges, order) && x in order
    ensures (order[|order| - 1], x) !in edges
  {
    var j :| 0 <= j < |order| && order[j] == x;
    assert (order[|order| - 1], order[j]) !in edges;
  }

  lemma RunTaskLocallyExact(plan: Plan, w: World, order: seq<nat>)
    requires Tasks(plan, order) && Backed(w.memory) && order != []
    requires Distinct(order) && Respects(plan.edges, order)
    requires LocallyExact(plan.edges, w, order[..|order| - 1])
    ensures LocallyExact(plan.edges, RunTask(plan, w, order[|order| - 1]), order)
  {
    var n := |order| - 1;
    var t := order[n];
    assert order == order[..n] + [t];
    var w' := RunTask(plan, w, t);
    forall x | x in w'.outcomes
      ensures HasBlockedPredecessor(plan.edges, w', x) == HasBlockedPredecessor(plan.edges, w, x)
    {
      assert x in order;
      NothingAfterLast(plan.edges, order, x);
      BlockedUnaffected(plan, w, w', t, x);
    }
  }

  lemma BlockingSpreads(edges: Edges, w: World, order: seq<nat>, f: nat, t: nat)
    requires LocallyExact(edges, w, order) && (forall e | e in edges :: e.1 in order)
    requires FailedTask(w, f) && ProperlyReaches(edges, f, t)
    ensures t in w.outcomes && w.outcomes[t].Cancelled?
  {
    var s := iset x: nat | Blocked(w, x);
    forall e | e in edges && e.0 in s ensures e.1 in s {
      assert HasBlockedPredecessor(edges, w, e.1);
    }
    assert Closed(edges, s);
    LastStep(edges, f, t);
    var e :| e in edges && e.1 == t && Reaches(edges, f, e.0);
    assert f in s;
    assert Blocked(w, e.0);
    assert HasBlockedPredecessor(edges, w, t);
  }

  lemma {:induction false} CancelledHasFailedAncestor(edges: Edges, w: World, order: seq<nat>, k: nat)
    requires LocallyExact(edges, w, order) && Respects(edges, order)
    requires k < |order| && w.outcomes[order[k]].Cancelled?
    ensures BelowFailure(edges, w, order[k])
    decreases k
  {
    var t := order[k];
    var e :| e in edges && e.1 == t && Blocked(w, e.0);
    assert Reaches(edges, t, t);
    assert e == (e.0, e.1);
    if w.outcomes[e.0].Cancelled? {
      var j :| 0 <= j < |order| && order[j] == e.0;
      assert (order[j], order[k]) in edges;
      CancelledHasFailedAncestor(edges, w, order, j);
      var f :| FailedTask(w, f) && ProperlyReaches(edges, f, e.0);
      var first :| first in edges && first.0 == f && Reaches(edges, first.1, e.0);
      ReachesStep(edges, first.1, e.0, t);
      assert ProperlyReaches(edges, f, t);
    } else {
      assert FailedTask(w, e.0) && ProperlyReaches(edges, e.0, t);
    }
  }

  /** Failure propagation is exact: after a complete run every task either ran or was
      cancelled, the cancelled tasks are those below a failed one, and a task ran
      exactly when all its direct predecessors succeeded. */
  lemma FailurePropagationExact(plan: Plan, memory: Allocations, order: seq<nat>)
    requires |plan.modules| == |plan.effects| && InRange(plan.edges, |plan.modules|) && Backed(memory)
    requires LinearExtension(plan.edges, |plan.modules|, order)
    ensures var w := RunOrder(plan, World(memory, map[]), order);
            forall t: nat | t < |plan.modules| ::
              && t in w.outcomes
              && (w.outcomes[t].Cancelled? <==> BelowFailure(plan.edges, w, t))
              && (w.outcomes[t].Ran? <==> forall e | e in plan.edges && e.1 == t :: SucceededTask(w, e.0))
  {
    var n := |plan.modules|;
    var w := RunOrder(plan, World(memory, map[]), order);
    RunOrderLocallyExact(plan, memory, order);
    DistinctBelow(n, order);
    forall t: nat | t < n
      ensures t in w.outcomes
      ensures w.outcomes[t].Cancelled? <==> BelowFailure(plan.edges, w, t)
      ensures w.outcomes[t].Ran? <==> forall e | e in plan.edges && e.1 == t :: SucceededTask(w, e.0)
    {
      assert t in order;
      if w.outcomes[t].Cancelled? {
        var k :| 0 <= k < |order| && order[k] == t;
        CancelledHasFailedAncestor(plan.edges, w, order, k);
      }
      if f :| FailedTask(w, f) && ProperlyReaches(plan.edges, f, t) {
        BlockingSpreads(plan.edges, w, order, f, t);
      }
      assert forall e | e in plan.edges :: e.0 in order;
      assert forall e | e in plan.edges :: SucceededTask(w, e.0) == !Blocked(w, e.0);
    }
  }

  ghost predicate SucceededTask(w: World, t: nat) {
    t in w.outcomes && w.outcomes[t].Ran? && w.outcomes[t].result.ok
  }

  // ------------------------------------------------------------ what the outcomes are

  /** A task that ran was executed on `before`, against the plan's certificate and the task's own effects, and left
      `after`; a cancelled one left the memory alone. */
  ghost predicate Executed(plan: Plan, w: World, t: nat, before: Allocations, after: Allocations) {
    && t < |plan.modules| == |plan.effects| && t in w.outcomes && Backed(before)
    && match w.outcomes[t]
       case Cancelled => after == before
       case Ran(result) => (after, result) == Execute(plan.modules[t], plan.certificate, Some(plan.effects[t]), before)
  }

  ghost predicate ExecutedInTurn(plan: Plan, w: World, order: seq<nat>, memories: seq<Allocations>) {
    |memories| == |order| + 1 && forall i | 0 <= i < |order| :: Executed(plan, w, order[i], memories[i], memories[i + 1])
  }

  /** In a run each task is executed on what its predecessors in the order left, or passed over. */
  lemma {:induction false} OutcomesAreExecutions(plan: Plan, memory: Allocations, order: seq<nat>)
    returns (memories: seq<Allocations>)
    requires Tasks(plan, order) && Backed(memory) && Distinct(order)
    ensures ExecutedInTurn(plan, RunOrder(plan, World(memory, map[]), order), order, memories)
    ensures memories[0] == memory && memories[|order|] == RunOrder(plan, World(memory, map[]), order).memory
  {
    if order == [] {
      memories := [memory];
    } else {
      var n := |order| - 1;
      var before := RunOrder(plan, World(memory, map[]), order[..n]);
      var front := OutcomesAreExecutions(plan, memory, order[..n]);
      assert order == order[..n] + [order[n]];
      var after := RunTask(plan, before, order[n]);
      memories := front + [after.memory];
      LastExecuted(plan, before, order[n]);
      forall i | 0 <= i < |order| ensures Executed(plan, after, order[i], memories[i], memories[i + 1]) {
        if i < n {
          assert Executed(plan, before, order[..n][i], front[i], front[i + 1]);
          OutcomeStays(plan, before, order[n], order[i]);
        }
      }
    }
  }

  lemma LastExecuted(plan: Plan, w: World, t: nat)
    requires t < |plan.modules| == |plan.effects| && Backed(w.memory)
    ensures Executed(plan, RunTask(plan, w, t), t, w.memory, RunTask(plan, w, t).memory)
  {}

  lemma OutcomeStays(plan: Plan, w: World, t: nat, u: nat)
    requires t < |plan.modules| == |plan.effects| && Backed(w.memory) && u != t && u in w.outcomes
    ensures u in RunTask(plan, w, t).outcomes && RunTask(plan, w, t).outcomes[u] == w.outcomes[u]
  {}
}
