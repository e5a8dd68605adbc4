/** Connected components of the structural edges, and the waves of one component
    (src/core/execution_schedule.cpp). */
module Components {
  import opened Digraph
  import opened Adjacency
  import opened Sorting
  import opened Wrappers
  import opened CanonicalOrder

  ghost function Symmetric(edges: Edges): Edges {
    edges + set e | e in edges :: (e.1, e.0)
  }

  ghost predicate Connected(edges: Edges, a: nat, b: nat) {
    Reaches(Symmetric(edges), a, b)
  }

  lemma ConnectedSymmetric(edges: Edges, a: nat, b: nat)
    requires Connected(edges, a, b)
    ensures Connected(edges, b, a)
  {
    var both := Symmetric(edges);
    var s := iset x: nat | Reaches(both, x, a);
    forall e | e in both && e.0 in s ensures e.1 in s {
      assert (e.1, e.0) in both;
      ReachesStep(both, e.1, e.1, e.0);
      ReachesTransitive(both, e.1, e.0, a);
    }
    assert Closed(both, s);
    assert Reaches(both, a, a);
  }

  /** One whole connected class, lowest task first. */
  ghost predicate IsComponent(edges: Edges, n: nat, tasks: seq<nat>) {
    && tasks != [] && StrictlyAscending(tasks)
    && forall x: nat :: x in tasks <==> x < n && Connected(edges, tasks[0], x)
  }

  ghost predicate InSome(components: seq<seq<nat>>, t: nat) {
    exists c :: 0 <= c < |components| && t in components[c]
  }

  /** The classes partition the tasks and are listed by their lowest members. */
  ghost predicate IsPartition(edges: Edges, n: nat, components: seq<seq<nat>>) {
    && (forall c | 0 <= c < |components| :: IsComponent(edges, n, components[c]))
    && (forall t: nat | t < n :: InSome(components, t))
    && (forall c, d | 0 <= c < d < |components| :: components[c][0] < components[d][0])
  }

  lemma ComponentMembers(edges: Edges, n: nat, tasks: seq<nat>, a: nat, b: nat)
    requires IsComponent(edges, n, tasks) && a in tasks
    ensures b in tasks <==> b < n && Connected(edges, a, b)
  {
    ConnectedSymmetric(edges, tasks[0], a);
    if b in tasks {
      ReachesTransitive(Symmetric(edges), a, tasks[0], b);
    } else if b < n && Connected(edges, a, b) {
      ReachesTransitive(Symmetric(edges), tasks[0], a, b);
    }
  }

  lemma ComponentsDisjoint(edges: Edges, n: nat, components: seq<seq<nat>>, c: nat, d: nat, t: nat)
    requires IsPartition(edges, n, components) && c < |components| && d < |components|
    requires t in components[c] && t in components[d]
    ensures c == d
  {
    var a, b := components[c], components[d];
    ComponentMembers(edges, n, a, t, b[0]);
    ComponentMembers(edges, n, b, t, b[0]);
    ComponentMembers(edges, n, b, t, a[0]);
    ComponentMembers(edges, n, a, t, a[0]);
    assert a[0] in b && b[0] in a;
    var i :| 0 <= i < |b| && b[i] == a[0];
    var j :| 0 <= j < |a| && a[j] == b[0];
    assert b[0] <= b[i] && a[0] <= a[j];
  }

  /** The ends of an edge are in the same component. */
  lemma EdgeStaysInside(edges: Edges, n: nat, tasks: seq<nat>, e: Edge)
    requires IsComponent(edges, n, tasks) && InRange(edges, n) && e in edges
    ensures e.0 in tasks <==> e.1 in tasks
  {
    var both := Symmetric(edges);
    assert (e.0, e.1) in both && (e.1, e.0) in both;
    if e.0 in tasks {
      ReachesStep(both, tasks[0], e.0, e.1);
    }
    if e.1 in tasks {
      ReachesStep(both, tasks[0], e.1, e.0);
    }
  }

  lemma ReachStaysInside(edges: Edges, n: nat, tasks: seq<nat>, a: nat, b: nat)
    requires IsComponent(edges, n, tasks) && InRange(edges, n) && Reaches(edges, a, b)
    ensures a in tasks <==> b in tasks
  {
    var inside := iset x: nat | x in tasks;
    var outside := iset x: nat | x !in tasks;
    forall e | e in edges ensures e.0 in tasks <==> e.1 in tasks {
      EdgeStaysInside(edges, n, tasks, e);
    }
    assert Closed(edges, inside) && Closed(edges, outside);
  }

  /** Grows one component from `seed`, marking it in the table shared by all seeds. */
  method Flood(undirected: Table, seed: nat, visited: array<bool>, ghost edges: Edges) returns (work: seq<nat>)
    requires WellFormed(undirected) && Pairs(undirected) == Symmetric(edges)
    requires seed < |undirected| == visited.Length && !visited[seed]
    requires forall e | e in edges && e.0 < |undirected| && e.1 < |undirected| :: visited[e.0] <==> visited[e.1]
    modifies visited
    ensures Distinct(work)
    ensures forall x: nat :: x in work <==> x < |undirected| && Connected(edges, seed, x)
    ensures forall x: nat | x < |undirected| :: visited[x] <==> old(visited[x]) || x in work
  {
    var n := |undirected|;
    ghost var before := visited[..];
    work := [seed];
    visited[seed] := true;
    var index := 0;
    while index < |work|
      invariant 0 <= index <= |work|
      invariant Flooding(undirected, seed, work, before) && seed in work
      invariant forall x: nat | x < n :: visited[x] <==> before[x] || x in work
      invariant forall k | 0 <= k < index :: forall b | b in undirected[work[k]] :: b in work
      decreases n - index
    {
      DistinctBelow(n, work);
      var current := work[index];
      var row := undirected[current];
      for j := 0 to |row|
        invariant index < |work| && work[index] == current
        invariant Flooding(undirected, seed, work, before) && seed in work
        invariant forall x: nat | x < n :: visited[x] <==> before[x] || x in work
        invariant forall k | 0 <= k < index :: forall b | b in undirected[work[k]] :: b in work
        invariant forall k | 0 <= k < j :: row[k] in work
      {
        var next := row[j];
        PairsMember(undirected, current, next);
        assert !before[current];
        assert !before[next];
        if !visited[next] {
          ReachesStep(Pairs(undirected), seed, current, next);
          visited[next] := true;
          work := work + [next];
        }
      }
      index := index + 1;
    }
    SearchComplete(undirected, seed, work);
    PairsInRange(undirected);
    forall x: nat ensures x in work <==> x < n && Connected(edges, seed, x) {
    }
  }

  ghost predicate Flooding(undirected: Table, seed: nat, work: seq<nat>, before: seq<bool>) {
    && |before| == |undirected| && Distinct(work)
    && forall k | 0 <= k < |work| ::
         work[k] < |undirected| && !before[work[k]] && Reaches(Pairs(undirected), seed, work[k])
  }

  /** The components found before `seed` are whole and account for every visited task. */
  ghost predicate Covered(edges: Edges, components: seq<seq<nat>>, visited: seq<bool>, seed: nat) {
    && (forall t: nat | t < |visited| :: visited[t] <==> InSome(components, t))
    && (forall t: nat | t < seed && t < |visited| :: visited[t])
    && (forall c | 0 <= c < |components| ::
          IsComponent(edges, |visited|, components[c]) && components[c][0] < seed)
    && (forall c, d | 0 <= c < d < |components| :: components[c][0] < components[d][0])
  }

  lemma CoveredEdges(edges: Edges, components: seq<seq<nat>>, visited: seq<bool>, seed: nat, e: Edge)
    requires Covered(edges, components, visited, seed) && e in edges && e.0 < |visited| && e.1 < |visited|
    ensures visited[e.0] <==> visited[e.1]
  {
    forall c | 0 <= c < |components| ensures e.0 in components[c] <==> e.1 in components[c] {
      EdgeInRangeStaysInside(edges, |visited|, components[c], e);
    }
  }

  lemma CoveredStep(
    edges: Edges, components: seq<seq<nat>>, before: seq<bool>, after: seq<bool>, work: seq<nat>, seed: nat)
    requires Covered(edges, components, before, seed) && seed < |before| == |after| && !before[seed]
    requires Distinct(work)
    requires forall x: nat :: x in work <==> x < |before| && Connected(edges, seed, x)
    requires forall x: nat | x < |before| :: after[x] <==> before[x] || x in work
    ensures Covered(edges, components + [Sort(work)], after, seed + 1)
  {
    var tasks := Sort(work);
    var longer := components + [tasks];
    SortMeaning(work);
    NewComponent(edges, |before|, components, work, seed);
    forall t: nat | t < |after| ensures after[t] <==> InSome(longer, t) {
      if t in work {
        assert t in longer[|components|];
      }
      if InSome(components, t) {
        var c :| 0 <= c < |components| && t in components[c];
        assert t in longer[c];
      }
    }
    assert seed in work;
  }

  /** One component per task that no earlier component contains. */
  method FindComponents(undirected: Table, ghost edges: Edges) returns (components: seq<seq<nat>>)
    requires WellFormed(undirected) && Pairs(undirected) == Symmetric(edges)
    ensures IsPartition(edges, |undirected|, components)
  {
    var n := |undirected|;
    var visited := new bool[n](_ => false);
    components := [];
    for seed := 0 to n
      invariant Covered(edges, components, visited[..], seed)
    {
      if !visited[seed] {
        ghost var before := visited[..];
        forall e | e in edges && e.0 < n && e.1 < n ensures visited[e.0] <==> visited[e.1] {
          CoveredEdges(edges, components, before, seed, e);
        }
        var work := Flood(undirected, seed, visited, edges);
        CoveredStep(edges, components, before, visited[..], work, seed);
        components := components + [Sort(work)];
      }
    }
  }

  lemma EdgeInRangeStaysInside(edges: Edges, n: nat, tasks: seq<nat>, e: Edge)
    requires IsComponent(edges, n, tasks) && e in edges && e.0 < n && e.1 < n
    ensures e.0 in tasks <==> e.1 in tasks
  {
    var both := Symmetric(edges);
    assert (e.0, e.1) in both && (e.1, e.0) in both;
    if e.0 in tasks {
      ReachesStep(both, tasks[0], e.0, e.1);
    }
    if e.1 in tasks {
      ReachesStep(both, tasks[0], e.1, e.0);
    }
  }

  lemma NewComponent(edges: Edges, n: nat, components: seq<seq<nat>>, work: seq<nat>, seed: nat)
    requires seed < n && Distinct(work)
    requires forall x: nat :: x in work <==> x < n && Connected(edges, seed, x)
    requires forall c | 0 <= c < |components| :: IsComponent(edges, n, components[c])
    requires forall t: nat | t < seed :: InSome(components, t)
    requires !InSome(components, seed)
    ensures IsComponent(edges, n, Sort(work)) && Sort(work)[0] == seed
  {
    SortMeaning(work);
    SortOfDistinct(work);
    var tasks := Sort(work);
    assert Reaches(Symmetric(edges), seed, seed);
    assert seed in tasks;
    var first := tasks[0];
    assert first in tasks && first in work;
    var i :| 0 <= i < |tasks| && tasks[i] == seed;
    if first < seed {
      assert InSome(components, first);
      var c :| 0 <= c < |components| && first in components[c];
      ConnectedSymmetric(edges, seed, first);
      ComponentMembers(edges, n, components[c], first, seed);
    }
  }
}
