/** Longest-path levels of one component (src/core/execution_schedule.cpp). */
module Waves {
  import opened Collections
  import opened Digraph
  import opened Adjacency
  import opened Sorting
  import opened Wrappers
  import opened CanonicalOrder
  import opened Components

  /** The position of the wave that lists `t`. */
  function WaveIndex(waves: seq<seq<nat>>, t: nat): (k: nat)
    ensures k <= |waves|
  {
    if waves == [] then 0
    else if t in waves[|waves| - 1] then |waves| - 1
    else WaveIndex(waves[..|waves| - 1], t)
  }

  function Ranks(tasks: seq<nat>, waves: seq<seq<nat>>): map<nat, nat> {
    map t | t in tasks :: WaveIndex(waves, t)
  }

  type RankMap = map<nat, nat>

  /** `rank` numbers tasks so that edges ascend and every positive number is forced by an edge. */
  ghost predicate RanksForced(edges: Edges, rank: RankMap) {
    && (forall e | e in edges && e.1 in rank :: e.0 in rank && rank[e.0] < rank[e.1])
    && (forall t | t in rank && rank[t] > 0 :: ForcedBy(edges, rank, t))
  }

  ghost predicate ForcedBy(edges: Edges, rank: RankMap, t: nat)
    requires t in rank
  {
    exists e | e in edges :: e.1 == t && e.0 in rank && rank[e.0] + 1 == rank[t]
  }

  /** Wave `k` lists, in ascending order, the tasks of rank `k`. */
  ghost predicate WavesOfRank(rank: RankMap, waves: seq<seq<nat>>) {
    && (forall k | 0 <= k < |waves| :: waves[k] != [] && StrictlyAscending(waves[k]))
    && (forall k, t | 0 <= k < |waves| :: t in waves[k] <==> t in rank && rank[t] == k)
    && (forall t | t in rank :: rank[t] < |waves|)
  }

  /** The waves of a component: every task once, at its longest-path depth. */
  ghost predicate Levelled(edges: Edges, tasks: seq<nat>, waves: seq<seq<nat>>) {
    var rank := Ranks(tasks, waves);
    RanksForced(edges, rank) && WavesOfRank(rank, waves)
  }

  lemma {:induction false} WaveIndexIsRank(rank: RankMap, waves: seq<seq<nat>>, count: nat, t: nat)
    requires WavesOfRank(rank, waves) && t in rank && rank[t] < count <= |waves|
    ensures WaveIndex(waves[..count], t) == rank[t]
  {
    assert waves[..count][count - 1] == waves[count - 1];
    if t !in waves[count - 1] {
      assert waves[..count][..count - 1] == waves[..count - 1];
      WaveIndexIsRank(rank, waves, count - 1, t);
    }
  }

  lemma RanksRecovered(rank: RankMap, tasks: seq<nat>, waves: seq<seq<nat>>)
    requires WavesOfRank(rank, waves) && rank.Keys == set t | t in tasks
    ensures Ranks(tasks, waves) == rank
  {
    assert waves[..|waves|] == waves;
    forall t | t in rank ensures WaveIndex(waves, t) == rank[t] {
      WaveIndexIsRank(rank, waves, |waves|, t);
    }
  }

  // ------------------------------------------------------------ longest paths

  ghost predicate IsPath(edges: Edges, path: seq<nat>) {
    path != [] && forall i | 0 <= i < |path| - 1 :: (path[i], path[i + 1]) in edges
  }

  /** No path that ends at `t` has more edges than its rank. */
  lemma {:induction false} PathsAreShort(edges: Edges, rank: RankMap, path: seq<nat>)
    requires RanksForced(edges, rank) && IsPath(edges, path) && path[|path| - 1] in rank
    ensures |path| - 1 <= rank[path[|path| - 1]]
  {
    if |path| > 1 {
      var n := |path| - 1;
      var front := path[..n];
      assert (path[n - 1], path[n]) in edges;
      assert (path[n - 1], path[n]).0 in rank;
      PathsAreShort(edges, rank, front);
    }
  }

  /** Some path that ends at `t` has exactly as many. */
  lemma {:induction false} LongestPathExists(edges: Edges, rank: RankMap, t: nat) returns (path: seq<nat>)
    requires RanksForced(edges, rank) && t in rank
    ensures IsPath(edges, path) && path[|path| - 1] == t && |path| - 1 == rank[t]
    decreases rank[t]
  {
    if rank[t] == 0 {
      path := [t];
    } else {
      var e :| e in edges && e.1 == t && e.0 in rank && rank[e.0] + 1 == rank[t];
      var front := LongestPathExists(edges, rank, e.0);
      path := front + [t];
      assert (e.0, t) in edges;
    }
  }

  /** A task's wave number is the length of the longest dependency path that ends at it. */
  lemma WaveIsLongestPath(edges: Edges, tasks: seq<nat>, waves: seq<seq<nat>>, t: nat)
    requires Levelled(edges, tasks, waves) && t in tasks
    ensures forall path | IsPath(edges, path) && path[|path| - 1] == t :: |path| - 1 <= WaveIndex(waves, t)
    ensures exists path :: IsPath(edges, path) && path[|path| - 1] == t && |path| - 1 == WaveIndex(waves, t)
  {
    var rank := Ranks(tasks, waves);
    forall path | IsPath(edges, path) && path[|path| - 1] == t ensures |path| - 1 <= WaveIndex(waves, t) {
      PathsAreShort(edges, rank, path);
    }
    var path := LongestPathExists(edges, rank, t);
  }

  // ------------------------------------------------------------ the levelling loop

  /** State between two waves: `done` lists the emitted tasks. */
  ghost predicate Levelling(
    table: Table, tasks: seq<nat>, done: seq<nat>, rank: RankMap, waves: seq<seq<nat>>, inDegree: seq<nat>)
  {
    && |inDegree| == |table|
    && Distinct(done) && rank.Keys == (set t | t in done)
    && (forall t | t in done :: t in tasks)
    && (forall x | x in tasks :: x < |table| && inDegree[x] == InDegree(table, done, |table|, x))
    && RanksForced(Pairs(table), rank) && WavesOfRank(rank, waves)
    && (forall x | x in tasks && x !in done && waves != [] :: HeldBack(Pairs(table), rank, |waves|, x))
  }

  /** Some predecessor was not yet emitted when the last wave was chosen. */
  ghost predicate HeldBack(edges: Edges, rank: RankMap, count: nat, x: nat) {
    exists e | e in edges && e.1 == x :: e.0 !in rank || rank[e.0] + 1 == count
  }

  ghost predicate Inward(edges: Edges, tasks: seq<nat>) {
    forall e | e in edges :: e.0 in tasks <==> e.1 in tasks
  }

  /** The unemitted tasks without unemitted predecessors, in ascending order. */
  function ReadyTasks(tasks: seq<nat>, done: set<nat>, inDegree: seq<nat>): seq<nat>
    requires forall x | x in tasks :: x < |inDegree|
  {
    if tasks == [] then [] else
    var n := |tasks| - 1;
    var t := tasks[n];
    assert t in tasks;
    assert forall x | x in tasks[..n] :: x in tasks;
    ReadyTasks(tasks[..n], done, inDegree) + if t !in done && inDegree[t] == 0 then [t] else []
  }

  lemma {:induction false} ReadyTasksMeaning(tasks: seq<nat>, done: set<nat>, inDegree: seq<nat>)
    requires StrictlyAscending(tasks) && forall x | x in tasks :: x < |inDegree|
    ensures var ready := ReadyTasks(tasks, done, inDegree);
            && StrictlyAscending(ready)
            && forall x :: x in ready <==> x in tasks && x !in done && inDegree[x] == 0
  {
    if tasks != [] {
      var n := |tasks| - 1;
      var rest, t := tasks[..n], tasks[n];
      assert tasks == rest + [t];
      assert forall x :: x in tasks <==> x in rest || x == t;
      var front := ReadyTasks(rest, done, inDegree);
      ReadyTasksMeaning(rest, done, inDegree);
      forall k | 0 <= k < |front| ensures front[k] < t {
        assert front[k] in front && front[k] in rest;
      }
    }
  }

  lemma StuckComponent(
    table: Table, tasks: seq<nat>, done: seq<nat>, rank: RankMap, waves: seq<seq<nat>>, inDegree: seq<nat>)
    requires Levelling(table, tasks, done, rank, waves, inDegree) && Inward(Pairs(table), tasks)
    requires !(forall x | x in tasks :: x in done)
    requires forall x | x in tasks && x !in done :: inDegree[x] > 0
    ensures !Acyclic(Pairs(table))
  {
    var x :| x in tasks && x !in done;
    var rest := set x | x in tasks && x !in done;
    forall y | y in rest ensures HasPredecessor(Pairs(table), rest, y) {
      InDegreeZero(table, done, |table|, y);
      var u: nat :| u < |table| && y in table[u] && u !in done;
      PairsMember(table, u, y);
      assert (u, y).0 in tasks;
    }
    assert x in rest;
    NoSourceMeansCycle(Pairs(table), rest, x);
  }

  /** Emitting the whole ready set keeps the levels exact. */
  lemma WaveKeepsLevels(
    table: Table, tasks: seq<nat>, done: seq<nat>, rank: RankMap, waves: seq<seq<nat>>, inDegree: seq<nat>,
    wave: seq<nat>, inDegree': seq<nat>)
    requires Levelling(table, tasks, done, rank, waves, inDegree)
    requires wave != [] && StrictlyAscending(wave)
    requires forall x :: x in wave <==> x in tasks && x !in done && inDegree[x] == 0
    requires |inDegree'| == |table|
    requires forall x | x in tasks :: inDegree'[x] == InDegree(table, done + wave, |table|, x)
    ensures Levelling(table, tasks, done + wave, ExtendRank(rank, wave, |waves|), waves + [wave], inDegree')
  {
    var edges := Pairs(table);
    DisjointConcat(done, wave);
    forall e | e in edges && e.1 in wave ensures e.0 in rank {
      PredecessorDone(table, done, e);
    }
    forall x | x in wave && waves != [] ensures LastWaveForces(edges, rank, |waves|, x) {
      assert HeldBack(edges, rank, |waves|, x);
    }
    ExtendForced(edges, rank, wave, |waves|);
    ExtendWaves(rank, waves, wave);
    var rank' := ExtendRank(rank, wave, |waves|);
    forall x | x in tasks && x !in done + wave ensures HeldBack(edges, rank', |waves| + 1, x) {
      HeldBackAfter(table, done, rank, wave, |waves|, x);
    }
    ExtendedKeys(rank, done, wave, |waves|);
  }

  lemma HeldBackAfter(table: Table, done: seq<nat>, rank: RankMap, wave: seq<nat>, count: nat, x: nat)
    requires rank.Keys == (set t | t in done) && InDegree(table, done, |table|, x) > 0
    ensures HeldBack(Pairs(table), ExtendRank(rank, wave, count), count + 1, x)
  {
    InDegreeZero(table, done, |table|, x);
    var u: nat :| u < |table| && x in table[u] && u !in done;
    PairsMember(table, u, x);
    var e := (u, x);
    assert e in Pairs(table) && e.0 !in rank;
  }

  lemma ExtendedKeys(rank: RankMap, done: seq<nat>, wave: seq<nat>, count: nat)
    requires rank.Keys == set t | t in done
    ensures ExtendRank(rank, wave, count).Keys == set t | t in done + wave
  {}

  function ExtendRank(rank: RankMap, wave: seq<nat>, count: nat): RankMap {
    rank + (map t | t in wave :: count)
  }

  ghost predicate LastWaveForces(edges: Edges, rank: RankMap, count: nat, x: nat) {
    exists e | e in edges && e.1 == x :: e.0 in rank && rank[e.0] + 1 == count
  }

  lemma ExtendForced(edges: Edges, rank: RankMap, wave: seq<nat>, count: nat)
    requires RanksForced(edges, rank) && forall t | t in rank :: rank[t] < count
    requires forall x | x in wave :: x !in rank
    requires forall e | e in edges && e.1 in wave :: e.0 in rank
    requires forall x | x in wave && count > 0 :: LastWaveForces(edges, rank, count, x)
    ensures RanksForced(edges, ExtendRank(rank, wave, count))
  {
    var rank' := ExtendRank(rank, wave, count);
    forall t | t in rank' && rank'[t] > 0 ensures ForcedBy(edges, rank', t) {
      if t in wave {
        assert LastWaveForces(edges, rank, count, t);
        var e :| e in edges && e.1 == t && e.0 in rank && rank[e.0] + 1 == count;
      } else {
        assert ForcedBy(edges, rank, t);
        var e :| e in edges && e.1 == t && e.0 in rank && rank[e.0] + 1 == rank[t];
      }
    }
  }

  lemma ExtendWaves(rank: RankMap, waves: seq<seq<nat>>, wave: seq<nat>)
    requires WavesOfRank(rank, waves) && wave != [] && StrictlyAscending(wave)
    requires forall x | x in wave :: x !in rank
    ensures WavesOfRank(ExtendRank(rank, wave, |waves|), waves + [wave])
  {
    var rank', waves' := ExtendRank(rank, wave, |waves|), waves + [wave];
    forall k, t | 0 <= k < |waves'| ensures t in waves'[k] <==> t in rank' && rank'[t] == k {
      if k < |waves| {
        assert waves'[k] == waves[k];
      }
    }
  }

  lemma DisjointConcat(a: seq<nat>, b: seq<nat>)
    requires Distinct(a) && StrictlyAscending(b) && forall x | x in b :: x !in a
    ensures Distinct(a + b)
  {
    var c := a + b;
    forall i, j | 0 <= i < j < |c| ensures c[i] != c[j] {
      if i < |a| <= j {
        assert c[j] in b && c[i] in a;
      }
    }
  }

  lemma PredecessorDone(table: Table, done: seq<nat>, e: Edge)
    requires e in Pairs(table) && InDegree(table, done, |table|, e.1) == 0
    ensures e.0 in done
  {
    InDegreeZero(table, done, |table|, e.1);
    PairsMember(table, e.0, e.1);
  }

  /** Decrements the in-degree of the members among `node`'s successors. */
  method ReleaseMembers(
    table: Table, ghost done: seq<nat>, node: nat, member: seq<bool>, inDegree: seq<nat>)
    returns (inDegree': seq<nat>)
    requires WellFormed(table) && node < |table| == |member| == |inDegree| && node !in done
    requires forall x: nat | x < |table| && member[x] :: inDegree[x] == InDegree(table, done, |table|, x)
    ensures |inDegree'| == |table|
    ensures forall x: nat | x < |table| && member[x] :: inDegree'[x] == InDegree(table, done + [node], |table|, x)
  {
    var row := table[node];
    inDegree' := inDegree;
    forall x: nat | x < |table| && member[x]
      ensures inDegree[x] == InDegree(table, done + [node], |table|, x) + multiset(row)[x]
    {
      InDegreeAfter(table, done, |table|, node, x);
    }
    assert row[0..] == row;
    for k := 0 to |row|
      invariant |inDegree'| == |table|
      invariant forall x: nat | x < |table| && member[x] ::
                  inDegree'[x] == InDegree(table, done + [node], |table|, x) + multiset(row[k..])[x]
    {
      var next := row[k];
      assert row[k..] == [next] + row[k + 1..];
      assert multiset(row[k..]) == multiset{next} + multiset(row[k + 1..]);
      if member[next] {
        inDegree' := inDegree'[next := inDegree'[next] - 1];
      }
    }
    assert row[|row|..] == [];
  }

  lemma LaterIsNew(order: seq<nat>, i: nat)
    requires Distinct(order) && i < |order|
    ensures order[i] !in order[..i]
  {}

  method ReleaseWave(
    table: Table, ghost done: seq<nat>, wave: seq<nat>, member: seq<bool>, inDegree: seq<nat>)
    returns (inDegree': seq<nat>)
    requires WellFormed(table) && |table| == |member| == |inDegree|
    requires Distinct(done + wave) && forall x | x in wave :: x < |table|
    requires forall x: nat | x < |table| && member[x] :: inDegree[x] == InDegree(table, done, |table|, x)
    ensures |inDegree'| == |table|
    ensures forall x: nat | x < |table| && member[x] :: inDegree'[x] == InDegree(table, done + wave, |table|, x)
  {
    inDegree' := inDegree;
    assert done + wave[..0] == done;
    for i := 0 to |wave|
      invariant |inDegree'| == |table|
      invariant forall x: nat | x < |table| && member[x] ::
                  inDegree'[x] == InDegree(table, done + wave[..i], |table|, x)
    {
      assert done + wave[..i + 1] == (done + wave[..i]) + [wave[i]];
      LaterIsNew(done + wave, |done| + i);
      assert done + wave[..i] == (done + wave)[..|done| + i];
      assert wave[i] in wave;
      inDegree' := ReleaseMembers(table, done + wave[..i], wave[i], member, inDegree');
    }
    assert wave[..|wave|] == wave;
  }

  /** Chooses and emits the next wave; an empty one means no task can proceed. */
  method EmitWave(
    table: Table, tasks: seq<nat>, member: seq<bool>, inDegree: seq<nat>, waves: seq<seq<nat>>, emitted: set<nat>,
    ghost done: seq<nat>, ghost rank: RankMap)
    returns (wave: seq<nat>, inDegree': seq<nat>, ghost done': seq<nat>, ghost rank': RankMap)
    requires WellFormed(table) && |member| == |table| && StrictlyAscending(tasks) && Inward(Pairs(table), tasks)
    requires forall x: nat | x < |table| :: member[x] <==> x in tasks
    requires Levelling(table, tasks, done, rank, waves, inDegree)
    requires emitted == Elements(done) && |emitted| < |tasks|
    ensures wave == [] ==> !Acyclic(Pairs(table))
    ensures wave != [] ==> Levelling(table, tasks, done', rank', waves + [wave], inDegree')
    ensures wave != [] ==> emitted + Elements(wave) == Elements(done') && |emitted| < |Elements(done')| <= |tasks|
  {
    wave := ReadyTasks(tasks, emitted, inDegree);
    ReadyTasksMeaning(tasks, emitted, inDegree);
    DistinctSize(done);
    if wave == [] {
      SomeTaskLeft(tasks, done);
      StuckComponent(table, tasks, done, rank, waves, inDegree);
      inDegree', done', rank' := inDegree, done, rank;
      return;
    }
    assert forall x :: x in wave <==> x in tasks && x !in done && inDegree[x] == 0;
    DisjointConcat(done, wave);
    inDegree' := ReleaseWave(table, done, wave, member, inDegree);
    WaveKeepsLevels(table, tasks, done, rank, waves, inDegree, wave, inDegree');
    done', rank' := done + wave, ExtendRank(rank, wave, |waves|);
    EmittedCount(tasks, done, wave);
  }

  lemma SomeTaskLeft(tasks: seq<nat>, done: seq<nat>)
    requires StrictlyAscending(tasks) && |done| < |tasks| && Distinct(done)
    ensures !(forall x | x in tasks :: x in done)
  {
    DistinctSize(tasks);
    DistinctSize(done);
    SmallerMisses(Elements(done), Elements(tasks));
    var x :| x in Elements(tasks) && x !in Elements(done);
    assert x in tasks && x !in done;
  }

  lemma LevelsStart(table: Table, tasks: seq<nat>, initial: seq<nat>)
    requires |initial| == |table|
    requires forall x | x in tasks :: x < |table| && initial[x] == InDegree(table, [], |table|, x)
    ensures Levelling(table, tasks, [], map[], [], initial)
  {}

  /** Splits a component into waves; fails only when the edges contain a cycle. */
  method LevelComponent(table: Table, tasks: seq<nat>, initial: seq<nat>) returns (r: Option<seq<seq<nat>>>)
    requires WellFormed(table) && StrictlyAscending(tasks) && Inward(Pairs(table), tasks)
    requires |initial| == |table|
    requires forall x | x in tasks :: x < |table| && initial[x] == InDegree(table, [], |table|, x)
    ensures r.None? ==> !Acyclic(Pairs(table))
    ensures r.Some? ==> Levelled(Pairs(table), tasks, r.value)
  {
    var n := |table|;
    var member := seq(n, i => i in tasks);
    var emitted: set<nat> := {};
    var inDegree := initial;
    var waves: seq<seq<nat>> := [];
    ghost var done: seq<nat> := [];
    ghost var rank: RankMap := map[];
    LevelsStart(table, tasks, initial);
    while |emitted| != |tasks|
      invariant emitted == Elements(done) && |emitted| <= |tasks|
      invariant Levelling(table, tasks, done, rank, waves, inDegree)
      decreases |tasks| - |emitted|
    {
      var wave, released;
      wave, released, done, rank := EmitWave(table, tasks, member, inDegree, waves, emitted, done, rank);
      if wave == [] {
        return None;
      }
      inDegree := released;
      waves := waves + [wave];
      emitted := emitted + set t | t in wave;
    }
    AllEmitted(tasks, done);
    RanksRecovered(rank, tasks, waves);
    r := Some(waves);
  }

  lemma EmittedCount(tasks: seq<nat>, done: seq<nat>, wave: seq<nat>)
    requires StrictlyAscending(tasks) && Distinct(done + wave) && Distinct(done) && wave != []
    requires forall t | t in done + wave :: t in tasks
    ensures Elements(done) + Elements(wave) == Elements(done + wave)
    ensures |Elements(done)| < |Elements(done + wave)| <= |tasks|
  {
    DistinctSize(done + wave);
    DistinctSize(done);
    DistinctSize(tasks);
    SubsetSize(Elements(done + wave), Elements(tasks));
  }

  lemma AllEmitted(tasks: seq<nat>, done: seq<nat>)
    requires StrictlyAscending(tasks) && Distinct(done) && |Elements(done)| == |tasks|
    requires forall t | t in done :: t in tasks
    ensures (set t | t in done) == (set t | t in tasks)
  {
    DistinctSize(done);
    DistinctSize(tasks);
    SubsetOfSameSize(Elements(done), Elements(tasks));
    assert (set t | t in done) == Elements(done);
    assert (set t | t in tasks) == Elements(tasks);
  }
}
