/** The lowest-ready-index-first order of the structural edges
    (src/core/effect_graph.cpp, `effect_graph_deterministic_order`). */
module CanonicalOrder {
  import opened Digraph
  import opened Collections
  import opened Adjacency
  import opened EffectGraphs
  import opened Wrappers

  /** Not listed yet, with every predecessor listed. */
  ghost predicate ReadyAfter(edges: Edges, done: seq<nat>, x: nat) {
    x !in done && forall e | e in edges && e.1 == x :: e.0 in done
  }

  /** Each entry is the least node that is ready when its turn comes. */
  ghost predicate Greedy(edges: Edges, n: nat, order: seq<nat>) {
    forall i | 0 <= i < |order| ::
      && ReadyAfter(edges, order[..i], order[i])
      && forall y: nat | y < n && ReadyAfter(edges, order[..i], y) :: order[i] <= y
  }

  ghost predicate IsCanonical(edges: Edges, n: nat, order: seq<nat>) {
    IsOrdering(n, order) && Greedy(edges, n, order)
  }

  /** At the first difference, `a` has the smaller entry. */
  ghost predicate LexicographicallyAtMost(a: seq<nat>, b: seq<nat>) {
    a == b || exists i :: 0 <= i < |a| && i < |b| && a[..i] == b[..i] && a[i] < b[i]
  }

  lemma GreedyRespects(edges: Edges, n: nat, order: seq<nat>)
    requires Greedy(edges, n, order) && Distinct(order)
    ensures Respects(edges, order)
  {
    forall i, j | 0 <= i < |order| && 0 <= j < |order| && (order[i], order[j]) in edges ensures i < j {
      assert ReadyAfter(edges, order[..j], order[j]);
      assert (order[i], order[j]).0 in order[..j];
      var k :| 0 <= k < j && order[..j][k] == order[i];
      assert order[k] == order[i];
    }
  }

  /** The canonical order is a linear extension, and no linear extension precedes it. */
  lemma CanonicalIsLeast(edges: Edges, n: nat, order: seq<nat>, other: seq<nat>)
    requires InRange(edges, n) && IsCanonical(edges, n, order) && LinearExtension(edges, n, other)
    ensures LinearExtension(edges, n, order)
    ensures LexicographicallyAtMost(order, other)
  {
    GreedyRespects(edges, n, order);
    if order != other {
      var i := FirstDifference(order, other);
      var x := other[i];
      forall e | e in edges && e.1 == x ensures e.0 in order[..i] {
        var k := IndexOf(n, other, e.0);
        assert (other[k], other[i]) in edges;
        assert other[..i][k] == e.0;
      }
      assert x !in order[..i];
      assert ReadyAfter(edges, order[..i], x);
    }
  }

  lemma FirstDifference(a: seq<nat>, b: seq<nat>) returns (i: nat)
    requires |a| == |b| && a != b
    ensures i < |a| && a[..i] == b[..i] && a[i] != b[i]
  {
    i := 0;
    while i < |a| && a[i] == b[i]
      invariant 0 <= i <= |a| && a[..i] == b[..i]
    {
      i := i + 1;
    }
    assert a[..|a|] == a && b[..|b|] == b;
  }

  lemma CanonicalUnique(edges: Edges, n: nat, a: seq<nat>, b: seq<nat>)
    requires InRange(edges, n) && IsCanonical(edges, n, a) && IsCanonical(edges, n, b)
    ensures a == b
  {
    var i := 0;
    while i < n
      invariant 0 <= i <= n && a[..i] == b[..i]
    {
      assert ReadyAfter(edges, a[..i], a[i]) && ReadyAfter(edges, b[..i], b[i]);
      i := i + 1;
    }
    assert a == a[..n] == b[..n] == b;
  }

  // ------------------------------------------------------------ in-degrees

  /** How often `x` is a successor of a row below `n` that is not in `done`. */
  ghost function InDegree(table: Table, done: seq<nat>, n: nat, x: nat): nat
    requires n <= |table|
  {
    if n == 0 then 0
    else InDegree(table, done, n - 1, x) + if n - 1 in done then 0 else multiset(table[n - 1])[x]
  }

  lemma {:induction false} InDegreeZero(table: Table, done: seq<nat>, n: nat, x: nat)
    requires n <= |table|
    ensures InDegree(table, done, n, x) == 0 <==> forall u: nat | u < n && x in table[u] :: u in done
  {
    if n > 0 {
      InDegreeZero(table, done, n - 1, x);
    }
  }

  /** Listing `v` releases exactly its own occurrences. */
  lemma {:induction false} InDegreeAfter(table: Table, done: seq<nat>, n: nat, v: nat, x: nat)
    requires n <= |table| && v < |table| && v !in done
    ensures InDegree(table, done, n, x) ==
            InDegree(table, done + [v], n, x) + if v < n then multiset(table[v])[x] else 0
  {
    if n > 0 {
      InDegreeAfter(table, done, n - 1, v, x);
      assert n - 1 in done + [v] <==> n - 1 in done || n - 1 == v;
    }
  }

  lemma {:induction false} InDegreeAppend(table: Table, n: nat, a: nat, b: nat, x: nat)
    requires n <= |table| && a < |table|
    ensures InDegree(Append(table, a, b), [], n, x) ==
            InDegree(table, [], n, x) + if a < n && x == b then 1 else 0
  {
    if n > 0 {
      InDegreeAppend(table, n - 1, a, b, x);
      assert multiset(table[a] + [b]) == multiset(table[a]) + multiset{b};
    }
  }

  lemma ReadyIsZero(table: Table, done: seq<nat>, x: nat)
    requires x < |table|
    ensures (InDegree(table, done, |table|, x) == 0 && x !in done) <==> ReadyAfter(Pairs(table), done, x)
  {
    InDegreeZero(table, done, |table|, x);
    forall u: nat ensures (u, x) in Pairs(table) <==> u < |table| && x in table[u] {
      PairsMember(table, u, x);
    }
    if ReadyAfter(Pairs(table), done, x) {
      forall u: nat | u < |table| && x in table[u] ensures u in done {
        assert (u, x) in Pairs(table);
      }
    } else if x !in done {
      var e :| e in Pairs(table) && e.1 == x && e.0 !in done;
      assert e == (e.0, x);
    }
  }

  // ------------------------------------------------------------ the loop

  /** Removes the least element of a duplicate-free list. */
  method TakeLeast(ready: seq<nat>) returns (least: nat, rest: seq<nat>)
    requires ready != [] && Distinct(ready)
    ensures least in ready && least !in rest && Distinct(rest)
    ensures forall x :: x in rest <==> x in ready && x != least
    ensures forall x | x in ready :: least <= x
  {
    var at := 0;
    for i := 1 to |ready|
      invariant 0 <= at < |ready| && at < i
      invariant forall k | 0 <= k < i :: ready[at] <= ready[k]
    {
      if ready[i] < ready[at] {
        at := i;
      }
    }
    least := ready[at];
    rest := ready[..at] + ready[at + 1..];
    RemovedOne(ready, at);
  }

  lemma RemovedOne(s: seq<nat>, at: nat)
    requires at < |s| && Distinct(s)
    ensures var rest := s[..at] + s[at + 1..];
            && Distinct(rest) && s[at] !in rest
            && forall x :: x in rest <==> x in s && x != s[at]
  {
    var rest := s[..at] + s[at + 1..];
    assert forall k | 0 <= k < |rest| :: rest[k] == s[if k < at then k else k + 1];
    forall x | x in s && x != s[at] ensures x in rest {
      var k :| 0 <= k < |s| && s[k] == x;
      assert rest[if k < at then k else k - 1] == x;
    }
  }

  /** State between two emissions. */
  ghost predicate Progress(table: Table, order: seq<nat>, inDegree: seq<nat>, ready: seq<nat>) {
    && |inDegree| == |table|
    && Distinct(order) && (forall i | 0 <= i < |order| :: order[i] < |table|)
    && (forall x: nat | x < |table| :: inDegree[x] == InDegree(table, order, |table|, x))
    && (forall x | x in order :: inDegree[x] == 0)
    && Distinct(ready)
    && (forall x: nat :: x in ready <==> x < |table| && x !in order && inDegree[x] == 0)
  }

  lemma StuckMeansCycle(table: Table, order: seq<nat>, inDegree: seq<nat>)
    requires WellFormed(table) && Progress(table, order, inDegree, [])
    ensures |order| == |table| || !Acyclic(Pairs(table))
  {
    DistinctBelow(|table|, order);
    if |order| < |table| {
      var rest := Below(|table|) - Elements(order);
      DistinctSize(order);
      SmallerMisses(Elements(order), Below(|table|));
      var x :| x in Below(|table|) && x !in Elements(order);
      assert x in rest;
      forall y | y in rest ensures HasPredecessor(Pairs(table), rest, y) {
        InDegreeZero(table, order, |table|, y);
        var u: nat :| u < |table| && y in table[u] && u !in order;
        PairsMember(table, u, y);
        assert (u, y) in Pairs(table);
      }
      NoSourceMeansCycle(Pairs(table), rest, x);
    }
  }

  /** Kahn's loop over a successor table: lists every node exactly when there is no cycle. */
  method EmitAll(table: Table, initial: seq<nat>) returns (order: seq<nat>)
    requires WellFormed(table)
    requires |initial| == |table| && forall x: nat | x < |table| :: initial[x] == InDegree(table, [], |table|, x)
    ensures |order| == |table| <==> Acyclic(Pairs(table))
    ensures |order| == |table| ==> IsCanonical(Pairs(table), |table|, order)
  {
    var count := |table|;
    var inDegree := initial;
    var ready: seq<nat> := [];
    for i := 0 to count
      invariant Distinct(ready) && forall k | 0 <= k < |ready| :: ready[k] < i
      invariant forall x: nat | x < count :: x in ready <==> x < i && inDegree[x] == 0
    {
      if inDegree[i] == 0 {
        ready := ready + [i];
      }
    }
    order := [];
    while ready != []
      invariant Progress(table, order, inDegree, ready)
      invariant Greedy(Pairs(table), count, order)
      decreases count - |order|
    {
      var node, rest := TakeLeast(ready);
      ghost var before := order;
      assert Greedy(Pairs(table), count, order + [node]) by {
        GreedyExtends(table, order, inDegree, ready, node);
      }
      ready := rest;
      order := order + [node];
      assert Distinct(order);
      DistinctBelow(count, order);
      inDegree, ready := Release(table, before, node, inDegree, ready);
    }
    StuckMeansCycle(table, order, inDegree);
    if |order| == count {
      PairsInRange(table);
      GreedyRespects(Pairs(table), count, order);
      LinearExtensionAcyclic(Pairs(table), count, order);
    }
  }

  lemma GreedyExtends(table: Table, order: seq<nat>, inDegree: seq<nat>, ready: seq<nat>, node: nat)
    requires Progress(table, order, inDegree, ready) && Greedy(Pairs(table), |table|, order)
    requires node in ready && forall x | x in ready :: node <= x
    ensures Greedy(Pairs(table), |table|, order + [node])
  {
    var longer := order + [node];
    forall i | 0 <= i < |longer|
      ensures ReadyAfter(Pairs(table), longer[..i], longer[i])
      ensures forall y: nat | y < |table| && ReadyAfter(Pairs(table), longer[..i], y) :: longer[i] <= y
    {
      if i < |order| {
        assert longer[..i] == order[..i];
      } else {
        assert longer[..i] == order;
        ReadyIsZero(table, order, node);
        forall y: nat | y < |table| && ReadyAfter(Pairs(table), order, y) ensures node <= y {
          ReadyIsZero(table, order, y);
        }
      }
    }
  }

  lemma LastIsNew(before: seq<nat>, node: nat)
    requires Distinct(before + [node])
    ensures node !in before
  {
    var order := before + [node];
    forall i | 0 <= i < |before| ensures before[i] != node {
      assert order[i] != order[|before|];
    }
  }

  /** Release of the successors in `pending` is outstanding. */
  ghost predicate Releasing(table: Table, order: seq<nat>, pending: multiset<nat>, inDegree: seq<nat>, ready: seq<nat>) {
    && |inDegree| == |table|
    && (forall x: nat | x < |table| :: inDegree[x] == InDegree(table, order, |table|, x) + pending[x])
    && (forall x | x in order :: x < |table| && inDegree[x] == 0)
    && Distinct(ready)
    && (forall x: nat :: x in ready <==> x < |table| && x !in order && inDegree[x] == 0)
  }

  lemma ReleaseOne(
    table: Table, order: seq<nat>, pending: multiset<nat>, inDegree: seq<nat>, ready: seq<nat>, next: nat)
    requires next < |table| && Releasing(table, order, multiset{next} + pending, inDegree, ready)
    ensures inDegree[next] > 0
    ensures var inDegree' := inDegree[next := inDegree[next] - 1];
            Releasing(table, order, pending, inDegree', if inDegree'[next] == 0 then ready + [next] else ready)
  {
    assert next !in order && next !in ready;
    var inDegree' := inDegree[next := inDegree[next] - 1];
    forall x: nat | x < |table| ensures inDegree'[x] == InDegree(table, order, |table|, x) + pending[x] {
      assert (multiset{next} + pending)[x] == pending[x] + if x == next then 1 else 0;
    }
  }

  /** Every node's in-degree counts its unemitted predecessors, but those of `node` are still to be subtracted. */
  ghost predicate AboutToRelease(table: Table, before: seq<nat>, node: nat, inDegree: seq<nat>, ready: seq<nat>) {
    && WellFormed(table) && node < |table| == |inDegree|
    && Distinct(before + [node]) && (forall i | 0 <= i < |before| :: before[i] < |table|)
    && (forall x: nat | x < |table| :: inDegree[x] == InDegree(table, before, |table|, x))
    && (forall x | x in before + [node] :: inDegree[x] == 0)
    && Distinct(ready)
    && (forall x: nat :: x in ready <==> x < |table| && x !in before + [node] && inDegree[x] == 0)
  }

  lemma ReleaseStarts(table: Table, before: seq<nat>, node: nat, inDegree: seq<nat>, ready: seq<nat>)
    requires AboutToRelease(table, before, node, inDegree, ready)
    ensures Releasing(table, before + [node], multiset(table[node]), inDegree, ready)
  {
    LastIsNew(before, node);
    forall x: nat | x < |table|
      ensures inDegree[x] == InDegree(table, before + [node], |table|, x) + multiset(table[node])[x]
    {
      InDegreeAfter(table, before, |table|, node, x);
    }
  }

  /** Decrements the in-degree of every successor of `node`, once per edge. */
  method Release(table: Table, ghost before: seq<nat>, node: nat, inDegree: seq<nat>, ready: seq<nat>)
    returns (inDegree': seq<nat>, ready': seq<nat>)
    requires AboutToRelease(table, before, node, inDegree, ready)
    ensures Progress(table, before + [node], inDegree', ready')
  {
    var row := table[node];
    ghost var order := before + [node];
    inDegree', ready' := inDegree, ready;
    ReleaseStarts(table, before, node, inDegree, ready);
    assert row[0..] == row;
    for k := 0 to |row|
      invariant Releasing(table, order, multiset(row[k..]), inDegree', ready')
    {
      var next := row[k];
      assert row[k..] == [next] + row[k + 1..];
      assert multiset(row[k..]) == multiset{next} + multiset(row[k + 1..]);
      ReleaseOne(table, order, multiset(row[k + 1..]), inDegree', ready', next);
      inDegree' := inDegree'[next := inDegree'[next] - 1];
      if inDegree'[next] == 0 {
        ready' := ready' + [next];
      }
    }
    assert row[|row|..] == [];
  }

  /** The canonical order of the structural edges, or failure. */
  method DeterministicOrder(edges: seq<EffectEdge>, count: nat) returns (r: Option<seq<nat>>)
    ensures r.Some? <==> InRange(StructuralPairs(edges), count) && Acyclic(StructuralPairs(edges))
    ensures r.Some? ==> IsCanonical(StructuralPairs(edges), count, r.value)
  {
    var adjacency := Empty(count);
    var inDegree: seq<nat> := seq(count, _ => 0);
    forall x: nat, n: nat | n <= count ensures InDegree(adjacency, [], n, x) == 0 {
      InDegreeZero(adjacency, [], n, x);
    }
    for i := 0 to |edges|
      invariant |adjacency| == count == |inDegree| && WellFormed(adjacency)
      invariant Pairs(adjacency) == StructuralPairs(edges[..i]) && InRange(StructuralPairs(edges[..i]), count)
      invariant forall x: nat | x < count :: inDegree[x] == InDegree(adjacency, [], count, x)
    {
      var edge := edges[i];
      assert edges[..i + 1] == edges[..i] + [edge];
      StructuralPairsAppend(edges[..i], edge);
      if edge.kind.Structural() {
        if edge.before >= count || edge.after >= count {
          assert (edge.before, edge.after) in StructuralPairs(edges);
          return None;
        }
        AppendPairs(adjacency, edge.before, edge.after);
        forall x: nat | x < count
          ensures InDegree(Append(adjacency, edge.before, edge.after), [], count, x) ==
                  inDegree[x] + if x == edge.after then 1 else 0
        {
          InDegreeAppend(adjacency, count, edge.before, edge.after, x);
        }
        adjacency := Append(adjacency, edge.before, edge.after);
        inDegree := inDegree[edge.after := inDegree[edge.after] + 1];
      }
    }
    assert edges[..|edges|] == edges;
    var order := EmitAll(adjacency, inDegree);
    r := if |order| == count then Some(order) else None;
  }

  /** On graphs whose edges are all structural the colouring search and the order agree. */
  method CycleChecksAgree(graph: EffectGraph, count: nat) returns (valid: bool, order: Option<seq<nat>>)
    requires InRange(AllPairs(graph.edges), count) && forall e | e in graph.edges :: e.kind.Structural()
    ensures valid <==> order.Some?
  {
    assert AllPairs(graph.edges) == StructuralPairs(graph.edges);
    valid := graph.Valid();
    order := DeterministicOrder(graph.edges, count);
  }
}
