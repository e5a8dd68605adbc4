/** When two effects conflict, and the bytes they conflict on
    (src/core/effect_graph.cpp, src/core/execution_schedule.cpp). */
module EffectConflicts {
  import opened Ir
  import opened Wrappers

  /** Same bytes under the same interpretation, with at least one side not a pure read. */
  predicate Conflicts(before: Effect, after: Effect) {
    if before.allocation != after.allocation || before.epoch != after.epoch then false
    else if before.size == 0 || after.size == 0 || !before.Fits() || !after.Fits() then false
    else if !(before.offset < after.offset + after.size && after.offset < before.offset + before.size) then false
    else !before.access.Read? || !after.access.Read?
  }

  datatype Range = Range(offset: U64, size: U64) {
    predicate Covers(k: int) {
      offset <= k < offset + size
    }
  }

  /** The byte range a producer hands to a consumer. */
  function Overlap(producer: Effect, consumer: Effect): Option<Range> {
    if producer.allocation != consumer.allocation || producer.epoch != consumer.epoch
       || producer.size == 0 || consumer.size == 0 || !producer.Fits() || !consumer.Fits() then None
    else
      var begin := if producer.offset < consumer.offset then consumer.offset else producer.offset;
      var producerEnd := producer.offset + producer.size;
      var consumerEnd := consumer.offset + consumer.size;
      var end := if consumerEnd < producerEnd then consumerEnd else producerEnd;
      if begin >= end || (producer.access.Read? && consumer.access.Read?) then None
      else Some(Range(begin, end - begin))
  }

  /** The two independently written tests agree, and the range is the exact intersection. */
  lemma OverlapIsConflict(producer: Effect, consumer: Effect)
    ensures Overlap(producer, consumer).Some? <==> Conflicts(producer, consumer)
    ensures Overlap(producer, consumer).Some? ==>
              forall k :: Overlap(producer, consumer).value.Covers(k) <==> producer.Covers(k) && consumer.Covers(k)
  {}

  /** Effects that fit conflict exactly when they share a byte that one of them does not merely read. */
  lemma ConflictMeaning(a: Effect, b: Effect)
    requires a.Fits() && b.Fits()
    ensures Conflicts(a, b) <==>
              && a.allocation == b.allocation && a.epoch == b.epoch
              && !(a.access.Read? && b.access.Read?)
              && exists k :: a.Covers(k) && b.Covers(k)
  {
    if Conflicts(a, b) {
      var k := if a.offset < b.offset then b.offset else a.offset;
      assert a.Covers(k) && b.Covers(k);
    }
  }

  lemma ConflictSymmetric(a: Effect, b: Effect)
    ensures Conflicts(a, b) == Conflicts(b, a)
  {}

  predicate TasksConflict(left: seq<Effect>, right: seq<Effect>) {
    exists i, j | 0 <= i < |left| && 0 <= j < |right| :: Conflicts(left[i], right[j])
  }

  lemma TasksConflictSymmetric(left: seq<Effect>, right: seq<Effect>)
    ensures TasksConflict(left, right) == TasksConflict(right, left)
  {
    if TasksConflict(left, right) {
      var i, j :| 0 <= i < |left| && 0 <= j < |right| && Conflicts(left[i], right[j]);
      ConflictSymmetric(left[i], right[j]);
    }
    if TasksConflict(right, left) {
      var i, j :| 0 <= i < |right| && 0 <= j < |left| && Conflicts(right[i], left[j]);
      ConflictSymmetric(right[i], left[j]);
    }
  }

  lemma NoConflictingPair(left: seq<Effect>, right: seq<Effect>, a: Effect, b: Effect)
    requires !TasksConflict(left, right) && a in left && b in right
    ensures !Conflicts(a, b)
  {
    var i :| 0 <= i < |left| && left[i] == a;
    var j :| 0 <= j < |right| && right[j] == b;
    assert !Conflicts(left[i], right[j]);
  }

  /** The nested scan over two tasks' effects. */
  method ScanForConflict(left: seq<Effect>, right: seq<Effect>) returns (conflict: bool)
    ensures conflict == TasksConflict(left, right)
  {
    conflict := false;
    for i := 0 to |left|
      invariant conflict <==> exists a, b | 0 <= a < i && 0 <= b < |right| :: Conflicts(left[a], right[b])
    {
      ghost var before := conflict;
      for j := 0 to |right|
        invariant conflict <==> before || exists b | 0 <= b < j :: Conflicts(left[i], right[b])
      {
        conflict := conflict || Conflicts(left[i], right[j]);
      }
    }
  }
}
