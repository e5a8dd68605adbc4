/** Successor tables and the breadth-first search that every pass of the planner repeats. */
module Adjacency {
  import opened Digraph

  type Table = seq<seq<nat>>

  /** Every listed successor is itself a row of the table. */
  ghost predicate WellFormed(table: Table) {
    forall a, k | 0 <= a < |table| && 0 <= k < |table[a]| :: table[a][k] < |table|
  }

  /** The edges a table stands for. */
  ghost function Pairs(table: Table): Edges {
    set a: nat, k: nat | a < |table| && k < |table[a]| :: (a, table[a][k])
  }

  lemma PairsMember(table: Table, a: nat, b: nat)
    ensures (a, b) in Pairs(table) <==> a < |table| && b in table[a]
  {
    if a < |table| && b in table[a] {
      var k :| 0 <= k < |table[a]| && table[a][k] == b;
      assert (a, table[a][k]) in Pairs(table);
    }
  }

  lemma PairsInRange(table: Table)
    requires WellFormed(table)
    ensures InRange(Pairs(table), |table|)
  {}

  function Append(table: Table, a: nat, b: nat): (r: Table)
    requires a < |table|
    ensures |r| == |table|
  {
    table[a := table[a] + [b]]
  }

  lemma AppendPairs(table: Table, a: nat, b: nat)
    requires a < |table|
    ensures Pairs(Append(table, a, b)) == Pairs(table) + {(a, b)}
    ensures WellFormed(table) && b < |table| ==> WellFormed(Append(table, a, b))
  {
    var r := Append(table, a, b);
    forall e | e in Pairs(r) ensures e in Pairs(table) + {(a, b)} {
      PairsMember(r, e.0, e.1);
      PairsMember(table, e.0, e.1);
    }
    forall e | e in Pairs(table) + {(a, b)} ensures e in Pairs(r) {
      PairsMember(r, e.0, e.1);
      PairsMember(table, e.0, e.1);
    }
  }

  function Empty(n: nat): (r: Table)
    ensures |r| == n && WellFormed(r) && Pairs(r) == {}
  {
    seq(n, _ => [])
  }

  /** The queue-driven search: `seen` holds exactly the nodes reachable from `source`. */
  method ReachableFrom(table: Table, source: nat) returns (seen: array<bool>)
    requires WellFormed(table) && source < |table|
    ensures fresh(seen) && seen.Length == |table|
    ensures forall x: nat | x < |table| :: seen[x] <==> Reaches(Pairs(table), source, x)
  {
    seen := new bool[|table|](_ => false);
    var work: seq<nat> := [source];
    seen[source] := true;
    var index := 0;
    while index < |work|
      invariant 0 <= index <= |work|
      invariant Distinct(work) && source in work
      invariant forall k | 0 <= k < |work| :: work[k] < |table| && Reaches(Pairs(table), source, work[k])
      invariant forall x: nat | x < |table| :: seen[x] <==> x in work
      invariant forall k | 0 <= k < index :: forall b | b in table[work[k]] :: b in work
      decreases |table| - index
    {
      DistinctBelow(|table|, work);
      var current := work[index];
      var row := table[current];
      for j := 0 to |row|
        invariant index < |work| && work[index] == current
        invariant Distinct(work) && source in work
        invariant forall k | 0 <= k < |work| :: work[k] < |table| && Reaches(Pairs(table), source, work[k])
        invariant forall x: nat | x < |table| :: seen[x] <==> x in work
        invariant forall k | 0 <= k < index :: forall b | b in table[work[k]] :: b in work
        invariant forall k | 0 <= k < j :: row[k] in work
      {
        var next := row[j];
        if !seen[next] {
          PairsMember(table, current, next);
          ReachesStep(Pairs(table), source, current, next);
          seen[next] := true;
          work := work + [next];
        }
      }
      index := index + 1;
    }
    SearchComplete(table, source, work);
  }

  lemma SearchComplete(table: Table, source: nat, work: seq<nat>)
    requires source in work
    requires forall k | 0 <= k < |work| :: work[k] < |table| && forall b | b in table[work[k]] :: b in work
    ensures forall x: nat | Reaches(Pairs(table), source, x) :: x in work
  {
    var s := iset x: nat | x in work;
    forall e | e in Pairs(table) && e.0 in s ensures e.1 in s {
      PairsMember(table, e.0, e.1);
    }
    assert Closed(Pairs(table), s);
  }
}
