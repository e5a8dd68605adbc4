/** The task graph: edges, the happens-before check, cycle detection and the canonical
    order (src/core/effect_graph.h, src/core/effect_graph.cpp). */
module EffectGraphs {
  import opened Ir
  import opened EffectConflicts
  import opened Digraph
  import opened Adjacency
  import opened Wrappers

  datatype EdgeKind = Explicit | InferredConflict | Timeline | Publication {
    /** Only these kinds order execution; the others are metadata. */
    predicate Structural() {
      Explicit? || InferredConflict?
    }
  }

  datatype EffectEdge = EffectEdge(before: nat, after: nat, kind: EdgeKind, timelineValue: U64)

  function AllPairs(edges: seq<EffectEdge>): Edges {
    set e | e in edges :: (e.before, e.after)
  }

  function StructuralPairs(edges: seq<EffectEdge>): Edges {
    set e | e in edges && e.kind.Structural() :: (e.before, e.after)
  }

  lemma AllPairsAppend(edges: seq<EffectEdge>, e: EffectEdge)
    ensures AllPairs(edges + [e]) == AllPairs(edges) + {(e.before, e.after)}
  {
    forall p | p in AllPairs(edges) + {(e.before, e.after)} ensures p in AllPairs(edges + [e]) {
      if p in AllPairs(edges) {
        var f :| f in edges && (f.before, f.after) == p;
        assert f in edges + [e];
      } else {
        assert e in edges + [e];
      }
    }
  }

  lemma StructuralPairsAppend(edges: seq<EffectEdge>, e: EffectEdge)
    ensures StructuralPairs(edges + [e]) ==
            StructuralPairs(edges) + if e.kind.Structural() then {(e.before, e.after)} else {}
  {
    var right := StructuralPairs(edges) + if e.kind.Structural() then {(e.before, e.after)} else {};
    forall p | p in right ensures p in StructuralPairs(edges + [e]) {
      if p in StructuralPairs(edges) {
        var f :| f in edges && f.kind.Structural() && (f.before, f.after) == p;
        assert f in edges + [e];
      } else {
        assert e in edges + [e];
      }
    }
  }

  ghost predicate ConflictsOrdered(edges: Edges, effects: seq<seq<Effect>>) {
    forall a: nat, b: nat | a < b < |effects| && TasksConflict(effects[a], effects[b]) :: Ordered(edges, a, b)
  }

  class EffectGraph {
    var edges: seq<EffectEdge>

    constructor ()
      ensures edges == []
    {
      edges := [];
    }

    /** Appends an edge unless it is a self-loop. */
    method AddEdge(before: nat, after: nat, kind: EdgeKind, timelineValue: U64) returns (ok: bool)
      modifies this
      ensures ok <==> before != after
      ensures edges == old(edges) + if ok then [EffectEdge(before, after, kind, timelineValue)] else []
    {
      if before == after {
        return false;
      }
      edges := edges + [EffectEdge(before, after, kind, timelineValue)];
      ok := true;
    }

    /** A dependency on a timeline point that must be non-zero and already signalled. */
    method AddTimelineEdge(before: nat, after: nat, required: U64, signaled: U64) returns (ok: bool)
      modifies this
      ensures ok <==> 0 < required <= signaled && before != after
      ensures edges == old(edges) + if ok then [EffectEdge(before, after, Timeline, required)] else []
    {
      if required == 0 || signaled < required {
        return false;
      }
      ok := AddEdge(before, after, Timeline, required);
    }

    /** Accepts exactly the graphs, over all edge kinds, without a cycle. */
    method Valid() returns (ok: bool)
      ensures ok <==> Acyclic(AllPairs(edges))
    {
      var search := new ColouringSearch(edges);
      ok := search.Run();
    }

    /** Every edge names a known task and every conflicting pair of tasks is ordered by a path. */
    method ValidateHappensBefore(effects: seq<seq<Effect>>) returns (ok: bool)
      ensures ok <==> InRange(AllPairs(edges), |effects|) && ConflictsOrdered(AllPairs(edges), effects)
    {
      var count := |effects|;
      var adjacency := Empty(count);
      for i := 0 to |edges|
        invariant |adjacency| == count && WellFormed(adjacency)
        invariant Pairs(adjacency) == AllPairs(edges[..i]) && InRange(AllPairs(edges[..i]), count)
      {
        var edge := edges[i];
        assert edges[..i + 1] == edges[..i] + [edge];
        AllPairsAppend(edges[..i], edge);
        if edge.before >= count || edge.after >= count {
          assert (edge.before, edge.after) in AllPairs(edges);
          return false;
        }
        AppendPairs(adjacency, edge.before, edge.after);
        adjacency := Append(adjacency, edge.before, edge.after);
      }
      assert edges[..|edges|] == edges;
      for before := 0 to count
        invariant forall a: nat, b: nat | a < before && a < b < count && TasksConflict(effects[a], effects[b]) ::
                    Ordered(AllPairs(edges), a, b)
      {
        for after := before + 1 to count
          invariant forall b: nat | before < b < after && TasksConflict(effects[before], effects[b]) ::
                      Ordered(AllPairs(edges), before, b)
        {
          var conflict := ScanForConflict(effects[before], effects[after]);
          if conflict {
            var forwards := ReachableFrom(adjacency, before);
            var backwards := ReachableFrom(adjacency, after);
            if !forwards[after] && !backwards[before] {
              return false;
            }
          }
        }
      }
      ok := true;
    }
  }

  datatype Colour = White | Grey | Black

  type Marks = map<nat, Colour>

  /** Finished nodes have only finished successors and lie on no cycle. */
  ghost predicate Finished(pairs: Edges, mark: Marks) {
    forall e | e in pairs && e.0 in mark && mark[e.0].Black? ::
      e.1 in mark && mark[e.1].Black? && !Reaches(pairs, e.1, e.0)
  }

  /** Every node on the search path leads properly to `node`. */
  ghost predicate GreyLeadsTo(pairs: Edges, mark: Marks, node: nat) {
    forall g | g in mark && mark[g].Grey? :: ProperlyReaches(pairs, g, node)
  }

  function Whites(mark: Marks): set<nat> {
    set x | x in mark && mark[x].White?
  }

  /** A node whose successors are all finished can be finished too. */
  lemma FinishNode(pairs: Edges, mark: Marks, node: nat)
    requires Finished(pairs, mark) && node in mark && !mark[node].Black?
    requires forall e | e in pairs && e.0 == node :: e.1 in mark && mark[e.1].Black?
    ensures Finished(pairs, mark[node := Black])
  {
    var s := iset x: nat | x in mark && mark[x].Black?;
    assert Closed(pairs, s);
    forall e | e in pairs && e.0 == node ensures !Reaches(pairs, e.1, e.0) {
      assert e.1 in s && e.0 !in s;
    }
  }

  /** Marking a node grey and following one of its edges keeps the path invariant. */
  lemma PathExtends(pairs: Edges, before: Marks, mark: Marks, node: nat, next: nat)
    requires GreyLeadsTo(pairs, before, node) && (node, next) in pairs
    requires forall g | g in mark && mark[g].Grey? && g != node :: g in before && before[g].Grey?
    ensures GreyLeadsTo(pairs, mark, next)
  {
    forall g | g in mark && mark[g].Grey? ensures ProperlyReaches(pairs, g, next) {
      if g == node {
        assert Reaches(pairs, next, next);
      } else {
        var e :| e in pairs && e.0 == g && Reaches(pairs, e.1, node);
        ReachesStep(pairs, e.1, node, next);
      }
    }
  }

  lemma OnOwnPathMeansCycle(pairs: Edges, mark: Marks, node: nat)
    requires GreyLeadsTo(pairs, mark, node) && node in mark && mark[node].Grey?
    ensures !Acyclic(pairs)
  {
    var e :| e in pairs && e.0 == node && Reaches(pairs, e.1, node);
  }

  function Endpoints(edges: seq<EffectEdge>): set<nat> {
    (set e | e in edges :: e.before) + (set e | e in edges :: e.after)
  }

  /** Depth-first search with three colours over the nodes that occur in some edge. */
  class ColouringSearch {
    ghost const pairs: Edges
    const nodes: set<nat>
    const adjacency: map<nat, seq<nat>>
    var mark: Marks

    constructor (edges: seq<EffectEdge>)
      ensures pairs == AllPairs(edges) && Ready()
      ensures forall x | x in nodes :: mark[x].White?
    {
      pairs := AllPairs(edges);
      nodes := Endpoints(edges);
      adjacency := map x | x in Endpoints(edges) :: SuccessorList(edges, x);
      mark := map x | x in Endpoints(edges) :: White;
      new;
      forall x: nat, y: nat ensures y in SuccessorList(edges, x) <==> (x, y) in pairs {
        SuccessorListMember(edges, x, y);
      }
      assert forall e | e in pairs :: e.0 in nodes && e.1 in nodes;
    }

    ghost predicate Ready()
      reads this
    {
      && adjacency.Keys == nodes && mark.Keys == nodes
      && (forall x, y | x in nodes :: y in adjacency[x] <==> (x, y) in pairs)
      && (forall e | e in pairs :: e.0 in nodes && e.1 in nodes)
    }

    method Visit(node: nat) returns (ok: bool)
      requires Ready() && node in nodes && Finished(pairs, mark) && GreyLeadsTo(pairs, mark, node)
      modifies this`mark
      ensures Ready()
      ensures !ok ==> !Acyclic(pairs)
      ensures ok ==> Finished(pairs, mark) && mark[node].Black?
      ensures ok ==> forall x | x in nodes && !old(mark)[x].White? :: mark[x] == old(mark)[x]
      ensures ok ==> forall x | x in nodes && old(mark)[x].White? :: !mark[x].Grey?
      decreases Whites(mark)
    {
      if mark[node].Grey? {
        OnOwnPathMeansCycle(pairs, mark, node);
        return false;
      }
      if mark[node].Black? {
        return true;
      }
      ghost var entry := mark;
      mark := mark[node := Grey];
      var row := adjacency[node];
      for i := 0 to |row|
        invariant Ready() && Finished(pairs, mark) && mark[node].Grey?
        invariant forall k | 0 <= k < i :: row[k] in nodes && mark[row[k]].Black?
        invariant forall x | x in nodes && x != node && !entry[x].White? :: mark[x] == entry[x]
        invariant forall x | x in nodes && x != node && entry[x].White? :: !mark[x].Grey?
      {
        var next := row[i];
        PathExtends(pairs, entry, mark, node, next);
        assert node in Whites(entry) && node !in Whites(mark) && Whites(mark) <= Whites(entry);
        var fine := Visit(next);
        if !fine {
          return false;
        }
      }
      FinishNode(pairs, mark, node);
      mark := mark[node := Black];
      ok := true;
    }

    /** Starts a search from every node that occurs in an edge, in any order. */
    method Run() returns (ok: bool)
      requires Ready() && forall x | x in nodes :: mark[x].White?
      modifies this`mark
      ensures ok <==> Acyclic(pairs)
    {
      var rest := nodes;
      while rest != {}
        invariant rest <= nodes && Ready() && Finished(pairs, mark)
        invariant forall x | x in nodes :: !mark[x].Grey?
        invariant forall x | x in nodes && x !in rest :: mark[x].Black?
        decreases rest
      {
        var x :| x in rest;
        var fine := Visit(x);
        if !fine {
          return false;
        }
        rest := rest - {x};
      }
      ok := true;
    }
  }

  function SuccessorList(edges: seq<EffectEdge>, x: nat): seq<nat> {
    if edges == [] then [] else
    var n := |edges| - 1;
    SuccessorList(edges[..n], x) + if edges[n].before == x then [edges[n].after] else []
  }

  lemma {:induction false} SuccessorListMember(edges: seq<EffectEdge>, x: nat, y: nat)
    ensures y in SuccessorList(edges, x) <==> (x, y) in AllPairs(edges)
  {
    if edges != [] {
      var n := |edges| - 1;
      SuccessorListMember(edges[..n], x, y);
      assert edges == edges[..n] + [edges[n]];
      AllPairsAppend(edges[..n], edges[n]);
    }
  }
}
