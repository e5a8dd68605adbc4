/** Reachability, acyclicity and linear extensions of a finite edge relation.

    `b` is reachable from `a` when every set that contains `a` and is closed under
    the edges contains `b`.  With this definition a reachability argument consists of
    exhibiting one closed set, so no induction over paths is needed. */
module Digraph {
  import opened Collections

  type Edge = (nat, nat)
  type Edges = set<Edge>

  ghost predicate Closed(edges: Edges, s: iset<nat>) {
    forall e | e in edges && e.0 in s :: e.1 in s
  }

  ghost predicate Reaches(edges: Edges, a: nat, b: nat) {
    forall s: iset<nat> | a in s && Closed(edges, s) :: b in s
  }

  /** No edge leads back to where it started. */
  ghost predicate Acyclic(edges: Edges) {
    forall e | e in edges :: !Reaches(edges, e.1, e.0)
  }

  ghost predicate InRange(edges: Edges, n: nat) {
    forall e | e in edges :: e.0 < n && e.1 < n
  }

  /** Either node precedes the other along some path. */
  ghost predicate Ordered(edges: Edges, a: nat, b: nat) {
    Reaches(edges, a, b) || Reaches(edges, b, a)
  }

  /** There is a non-empty path from `a` to `b`. */
  ghost predicate ProperlyReaches(edges: Edges, a: nat, b: nat) {
    exists e | e in edges :: e.0 == a && Reaches(edges, e.1, b)
  }

  lemma ReachesStep(edges: Edges, a: nat, b: nat, c: nat)
    requires Reaches(edges, a, b) && (b, c) in edges
    ensures Reaches(edges, a, c)
  {
    forall s: iset<nat> | a in s && Closed(edges, s) ensures c in s {
      assert b in s;
      assert (b, c).0 in s;
    }
  }

  lemma ReachesTransitive(edges: Edges, a: nat, b: nat, c: nat)
    requires Reaches(edges, a, b) && Reaches(edges, b, c)
    ensures Reaches(edges, a, c)
  {}

  /** A path that is not empty starts with an edge. */
  lemma ReachesCases(edges: Edges, a: nat, b: nat)
    requires Reaches(edges, a, b)
    ensures a == b || ProperlyReaches(edges, a, b)
  {
    var s := iset x: nat | x == a || ProperlyReaches(edges, a, x);
    forall e | e in edges && e.0 in s ensures e.1 in s {
      if e.0 == a {
        assert Reaches(edges, e.1, e.1);
      } else {
        var f :| f in edges && f.0 == a && Reaches(edges, f.1, e.0);
        ReachesStep(edges, f.1, e.0, e.1);
      }
    }
    assert Closed(edges, s);
  }

  lemma ProperlyReachesImpliesReaches(edges: Edges, a: nat, b: nat)
    requires ProperlyReaches(edges, a, b)
    ensures Reaches(edges, a, b)
  {
    var e :| e in edges && e.0 == a && Reaches(edges, e.1, b);
    assert (a, e.1) in edges;
    ReachesStep(edges, a, a, e.1);
  }

  /** A non-empty path ends with an edge. */
  lemma LastStep(edges: Edges, a: nat, b: nat)
    requires ProperlyReaches(edges, a, b)
    ensures EndsWithEdge(edges, a, b)
  {
    var e :| e in edges && e.0 == a && Reaches(edges, e.1, b);
    var s := iset x: nat | EndsWithEdge(edges, a, x);
    forall f | f in edges && f.0 in s ensures f.1 in s {
      var p :| p in edges && p.1 == f.0 && Reaches(edges, a, p.0);
      ReachesStep(edges, a, p.0, f.0);
    }
    assert Closed(edges, s);
    assert Reaches(edges, a, a);
    assert e.1 in s;
  }

  ghost predicate EndsWithEdge(edges: Edges, a: nat, b: nat) {
    exists e | e in edges :: e.1 == b && Reaches(edges, a, e.0)
  }

  lemma ReachesMonotone(small: Edges, large: Edges, a: nat, b: nat)
    requires small <= large && Reaches(small, a, b)
    ensures Reaches(large, a, b)
  {
    forall s: iset<nat> | a in s && Closed(large, s) ensures b in s {
      assert Closed(small, s);
    }
  }

  /** A path through an enlarged relation either avoids the new edge or splits at it. */
  lemma ReachesWithNewEdge(edges: Edges, l: nat, r: nat, a: nat, b: nat)
    requires Reaches(edges + {(l, r)}, a, b)
    ensures Reaches(edges, a, b) || (Reaches(edges, a, l) && Reaches(edges, r, b))
  {
    var s := iset x: nat | Reaches(edges, a, x) || (Reaches(edges, a, l) && Reaches(edges, r, x));
    forall e | e in edges + {(l, r)} && e.0 in s ensures e.1 in s {
      if e == (l, r) {
        assert Reaches(edges, r, r);
      } else if Reaches(edges, a, e.0) {
        ReachesStep(edges, a, e.0, e.1);
      } else {
        ReachesStep(edges, r, e.0, e.1);
      }
    }
    assert Closed(edges + {(l, r)}, s);
  }

  /** Adding an edge between nodes that were unordered cannot close a cycle. */
  lemma AcyclicWithNewEdge(edges: Edges, l: nat, r: nat)
    requires Acyclic(edges) && !Reaches(edges, r, l)
    ensures Acyclic(edges + {(l, r)})
  {
    forall e | e in edges + {(l, r)} ensures !Reaches(edges + {(l, r)}, e.1, e.0) {
      if Reaches(edges + {(l, r)}, e.1, e.0) {
        ReachesWithNewEdge(edges, l, r, e.1, e.0);
        // An old edge on the cycle would close r -> e.0 -> e.1 -> l.
      }
    }
  }

  /** In an acyclic relation a proper path is never closed by a path back. */
  lemma AcyclicNoReturn(edges: Edges, a: nat, b: nat)
    requires Acyclic(edges) && ProperlyReaches(edges, a, b)
    ensures !Reaches(edges, b, a) && a != b
  {
    var e :| e in edges && e.0 == a && Reaches(edges, e.1, b);
    if Reaches(edges, b, a) {
      ReachesTransitive(edges, e.1, b, a);
    }
  }

  lemma AcyclicSubset(small: Edges, large: Edges)
    requires small <= large && Acyclic(large)
    ensures Acyclic(small)
  {
    forall e | e in small ensures !Reaches(small, e.1, e.0) {
      if Reaches(small, e.1, e.0) {
        ReachesMonotone(small, large, e.1, e.0);
      }
    }
  }

  // ---------------------------------------------------------------- orders

  ghost predicate Distinct(order: seq<nat>) {
    forall i, j | 0 <= i < j < |order| :: order[i] != order[j]
  }

  /** `order` lists every node below `n` exactly once. */
  ghost predicate IsOrdering(n: nat, order: seq<nat>) {
    && |order| == n
    && Distinct(order)
    && forall i | 0 <= i < |order| :: order[i] < n
  }

  ghost predicate Respects(edges: Edges, order: seq<nat>) {
    forall i, j | 0 <= i < |order| && 0 <= j < |order| && (order[i], order[j]) in edges :: i < j
  }

  ghost predicate LinearExtension(edges: Edges, n: nat, order: seq<nat>) {
    IsOrdering(n, order) && Respects(edges, order)
  }

  function Elements(order: seq<nat>): set<nat> {
    set x | x in order
  }

  lemma DistinctSize(order: seq<nat>)
    requires Distinct(order)
    ensures |Elements(order)| == |order|
  {
    if order != [] {
      var front := order[..|order| - 1];
      DistinctSize(front);
      assert order[|order| - 1] !in front;
      assert Elements(order) == Elements(front) + {order[|order| - 1]};
    }
  }

  lemma SubsetOfSameSize(small: set<nat>, large: set<nat>)
    requires small <= large && |small| >= |large|
    ensures small == large
  {
    if x :| x in large && x !in small {
      SubsetSize(small, large - {x});
    }
  }

  lemma SmallerMisses(small: set<nat>, large: set<nat>)
    requires |small| < |large|
    ensures exists x :: x in large && x !in small
  {
    if forall x | x in large :: x in small {
      SubsetSize(large, small);
    }
  }

  /** Distinct entries below `n` number at most `n`, and `n` of them are all of them. */
  lemma DistinctBelow(n: nat, order: seq<nat>)
    requires Distinct(order)
    requires forall i | 0 <= i < |order| :: order[i] < n
    ensures |order| <= n
    ensures |order| == n ==> forall t: nat | t < n :: t in order
  {
    DistinctSize(order);
    var listed := Elements(order);
    SubsetSize(listed, Below(n));
    if |order| == n {
      SubsetOfSameSize(listed, Below(n));
      forall t: nat | t < n ensures t in order {
        assert t in Below(n);
        assert t in listed;
      }
    }
  }

  lemma IndexOf(n: nat, order: seq<nat>, t: nat) returns (i: nat)
    requires IsOrdering(n, order) && t < n
    ensures i < n && order[i] == t
  {
    DistinctBelow(n, order);
    assert t in order;
    i :| i < n && order[i] == t;
  }

  /** Paths run forwards through a linear extension. */
  lemma ReachesRunsForward(edges: Edges, n: nat, order: seq<nat>, i: nat, j: nat)
    requires LinearExtension(edges, n, order) && InRange(edges, n)
    requires i < n && j < n && Reaches(edges, order[i], order[j])
    ensures i <= j
  {
    var s := iset x: nat | x in order[i..];
    forall e | e in edges && e.0 in s ensures e.1 in s {
      var k :| 0 <= k < n - i && order[i..][k] == e.0;
      var m := IndexOf(n, order, e.1);
      assert (order[i + k], order[m]) in edges;
      assert order[i..][m - i] == e.1;
    }
    assert Closed(edges, s);
    assert order[i..][0] == order[i];
    var k :| 0 <= k < n - i && order[i..][k] == order[j];
  }

  lemma LinearExtensionAcyclic(edges: Edges, n: nat, order: seq<nat>)
    requires LinearExtension(edges, n, order) && InRange(edges, n)
    ensures Acyclic(edges)
  {
    forall e | e in edges ensures !Reaches(edges, e.1, e.0) {
      if Reaches(edges, e.1, e.0) {
        var i := IndexOf(n, order, e.0);
        var j := IndexOf(n, order, e.1);
        assert (order[i], order[j]) in edges;
        ReachesRunsForward(edges, n, order, j, i);
      }
    }
  }

  /** A non-empty set in which every node has a predecessor contains a cycle. */
  lemma FewerAncestors(edges: Edges, rest: set<nat>, p: nat, x: nat)
    requires Acyclic(edges) && (p, x) in edges && x in rest
    ensures |Ancestors(edges, rest, p)| < |Ancestors(edges, rest, x)|
  {
    var above, below := Ancestors(edges, rest, p), Ancestors(edges, rest, x);
    forall y | y in above ensures y in below {
      ReachesStep(edges, y, p, x);
    }
    assert Reaches(edges, x, x) && x in below;
    assert x !in above;
    SubsetSize(above, below - {x});
  }

  lemma {:induction false} NoSourceMeansCycle(edges: Edges, rest: set<nat>, x: nat)
    requires x in rest
    requires forall y | y in rest :: HasPredecessor(edges, rest, y)
    ensures !Acyclic(edges)
    decreases |Ancestors(edges, rest, x)|
  {
    if Acyclic(edges) {
      var e :| e in edges && e.1 == x && e.0 in rest;
      var p := e.0;
      FewerAncestors(edges, rest, p, x);
      NoSourceMeansCycle(edges, rest, p);
    }
  }

  ghost predicate HasPredecessor(edges: Edges, rest: set<nat>, x: nat) {
    exists e | e in edges :: e.1 == x && e.0 in rest
  }

  ghost function Ancestors(edges: Edges, rest: set<nat>, x: nat): set<nat> {
    set y | y in rest && Reaches(edges, y, x)
  }
}
