/** An execution depends on, and changes, no byte outside its instantiated effects;
    executions whose effects do not conflict therefore commute. */
module Footprint {
  import opened Ir
  import opened Arenas
  import opened Bytes
  import opened Wrappers
  import opened EffectConflicts
  import opened Interpreter

  /** Some effect reaches byte `k` of allocation `id` at its current representation. */
  ghost predicate Touched(effects: seq<Effect>, memory: Allocations, id: U64, k: nat) {
    exists e | e in effects :: Hits(e, memory, id, k)
  }

  ghost predicate Hits(e: Effect, memory: Allocations, id: U64, k: nat) {
    id in memory && e.allocation == id && e.epoch == memory[id].epoch && e.Covers(k)
  }

  predicate Mutating(access: Access) {
    access.Write? || access.Atomic?
  }

  /** Some writing or atomic effect reaches the byte. */
  ghost predicate Written(effects: seq<Effect>, memory: Allocations, id: U64, k: nat) {
    exists e | e in effects :: Mutating(e.access) && Hits(e, memory, id, k)
  }

  /** Only bytes that `effects` may write differ. */
  ghost predicate ChangesOnly(effects: seq<Effect>, before: Allocations, after: Allocations) {
    && SameShape(before, after)
    && forall id, k: nat | id in before && k < |before[id].bytes| && before[id].bytes[k] != after[id].bytes[k] ::
         Written(effects, before, id, k)
  }

  /** Same metadata, and the same bytes wherever `effects` reach. */
  ghost predicate Agree(effects: seq<Effect>, a: Allocations, b: Allocations) {
    && SameShape(a, b)
    && forall id, k: nat | id in a && k < |a[id].bytes| && Touched(effects, a, id, k) :: a[id].bytes[k] == b[id].bytes[k]
  }

  ghost predicate MachinesAgree(effects: seq<Effect>, a: Machine, b: Machine) {
    a.refs == b.refs && a.produced == b.produced && a.trace == b.trace && Agree(effects, a.memory, b.memory)
  }

  ghost predicate StepsAgree(effects: seq<Effect>, a: Step, b: Step) {
    && MachinesAgree(effects, a.m, b.m)
    && (a.Next? <==> b.Next?)
    && (a.Stop? ==> a.effect == b.effect && a.code == b.code)
  }

  lemma InterpretChangesOnly(i: Instruction, index: nat, m: Machine, effects: seq<Effect>)
    requires Backed(m.memory) && Executable(i, index, |m.refs|)
    requires i.AsEffect() in effects
    ensures ChangesOnly(effects, m.memory, Interpret(i, index, m).m.memory)
  {
    InterpretKeepsShape(i, index, m);
    var after := Interpret(i, index, m).m.memory;
    forall id, k: nat | id in m.memory && k < |m.memory[id].bytes| && m.memory[id].bytes[k] != after[id].bytes[k]
      ensures Written(effects, m.memory, id, k)
    {
      assert Mutating(i.AsEffect().access) && Hits(i.AsEffect(), m.memory, id, k);
    }
  }

  lemma SlicesAgree(e: Effect, effects: seq<Effect>, a: Allocations, b: Allocations)
    requires e in effects && Agree(effects, a, b)
    requires e.allocation in a && e.epoch == a[e.allocation].epoch
    requires e.offset + e.size <= |a[e.allocation].bytes|
    ensures e.offset + e.size <= |b[e.allocation].bytes|
    ensures Slice(a, e.allocation, e.offset, e.size) == Slice(b, e.allocation, e.offset, e.size)
  {
    forall k: nat | e.offset <= k < e.offset + e.size
      ensures a[e.allocation].bytes[k] == b[e.allocation].bytes[k]
    {
      assert Hits(e, a, e.allocation, k);
      assert Touched(effects, a, e.allocation, k);
    }
  }

  lemma SameShapeSameEpoch(a: Allocations, b: Allocations, id: U64)
    requires SameShape(a, b) && id in a
    ensures id in b && a[id].epoch == b[id].epoch && a[id].generation == b[id].generation
    ensures a[id].state == b[id].state && a[id].size == b[id].size
  {
    assert a[id].Shape() == b[id].Shape();
    assert a[id].Shape().epoch == b[id].Shape().epoch;
    assert a[id].Shape().generation == b[id].Shape().generation;
    assert a[id].Shape().state == b[id].Shape().state;
    assert a[id].Shape().size == b[id].Shape().size;
  }

  lemma PatchesAgree(effects: seq<Effect>, a: Allocations, b: Allocations, id: U64, offset: nat, data: seq<Byte>)
    requires Agree(effects, a, b) && id in a && offset + |data| <= |a[id].bytes|
    ensures id in b && offset + |data| <= |b[id].bytes|
    ensures Agree(effects, Patch(a, id, offset, data), Patch(b, id, offset, data))
  {
    assert a[id].Shape() == b[id].Shape();
    var a', b' := Patch(a, id, offset, data), Patch(b, id, offset, data);
    forall x | x in a' ensures a'[x].Shape() == b'[x].Shape() && |a'[x].bytes| == |b'[x].bytes| {
      assert a[x].Shape() == b[x].Shape();
      assert a'[x].Shape() == a[x].Shape() && b'[x].Shape() == b[x].Shape();
    }
    forall x, k: nat | x in a' && k < |a'[x].bytes| && Touched(effects, a', x, k)
      ensures a'[x].bytes[k] == b'[x].bytes[k]
    {
      var e :| e in effects && Hits(e, a', x, k);
      assert Hits(e, a, x, k);
      assert Touched(effects, a, x, k);
    }
  }

  /** An instruction sees only bytes of its own effect. */
  lemma InterpretAgrees(i: Instruction, index: nat, a: Machine, b: Machine, effects: seq<Effect>)
    requires Backed(a.memory) && Backed(b.memory) && Executable(i, index, |a.refs|)
    requires i.AsEffect() in effects && MachinesAgree(effects, a, b)
    ensures StepsAgree(effects, Interpret(i, index, a), Interpret(i, index, b))
  {
    if i.allocation in a.memory {
      SameShapeSameEpoch(a.memory, b.memory, i.allocation);
    }
    if Accessible(i, a.memory) {
      SlicesAgree(i.AsEffect(), effects, a.memory, b.memory);
      if i.op.Store? || i.op.StoreVia? {
        PatchesAgree(effects, a.memory, b.memory, i.allocation, i.offset, Fill(i.size, LowByte(i.value)));
      } else if i.op.AtomicAdd? && i.size == 8 {
        var sum := AddWrapping(DecodeLe(Slice(a.memory, i.allocation, i.offset, 8)), i.value);
        PatchesAgree(effects, a.memory, b.memory, i.allocation, i.offset, EncodeLe(sum, 8));
      }
    }
  }

  ghost predicate AllIn(instructions: seq<Instruction>, effects: seq<Effect>) {
    forall k: nat | k < |instructions| :: instructions[k].AsEffect() in effects
  }

  lemma ChangesOnlyCompose(effects: seq<Effect>, a: Allocations, b: Allocations, c: Allocations)
    requires ChangesOnly(effects, a, b) && ChangesOnly(effects, b, c)
    ensures ChangesOnly(effects, a, c)
  {
    forall id | id in a ensures a[id].Shape() == c[id].Shape() && |a[id].bytes| == |c[id].bytes| {
      assert a[id].Shape() == b[id].Shape();
      assert b[id].Shape() == c[id].Shape();
    }
    forall id, k: nat | id in a && k < |a[id].bytes| && a[id].bytes[k] != c[id].bytes[k]
      ensures Written(effects, a, id, k)
    {
      if a[id].bytes[k] == b[id].bytes[k] {
        assert Written(effects, b, id, k);
        var e :| e in effects && Mutating(e.access) && Hits(e, b, id, k);
        SameShapeSameEpoch(a, b, id);
        assert Hits(e, a, id, k);
      }
    }
  }

  lemma {:induction false} RunChangesOnly(instructions: seq<Instruction>, index: nat, m: Machine, effects: seq<Effect>)
    requires index <= |instructions| == |m.refs|
    requires Backed(m.memory) && AllExecutable(instructions) && AllIn(instructions, effects)
    ensures ChangesOnly(effects, m.memory, RunFrom(instructions, index, m).0.m.memory)
    decreases |instructions| - index
  {
    if index < |instructions| {
      var i := instructions[index];
      assert Executable(i, index, |m.refs|);
      InterpretChangesOnly(i, index, m, effects);
      InterpretKeepsShape(i, index, m);
      var step := Interpret(i, index, m);
      if step.Next? {
        RunChangesOnly(instructions, index + 1, step.m, effects);
        ChangesOnlyCompose(effects, m.memory, step.m.memory, RunFrom(instructions, index, m).0.m.memory);
      }
    }
  }

  /** What remains of a run after the step of the instruction at `index`. */
  ghost function Continued(instructions: seq<Instruction>, index: nat, step: Step): (Step, nat)
    requires index < |instructions| == |step.m.refs| && Backed(step.m.memory) && AllExecutable(instructions)
  {
    if step.Stop? then (step, index) else RunFrom(instructions, index + 1, step.m)
  }

  lemma RunContinues(instructions: seq<Instruction>, index: nat, m: Machine)
    requires index < |instructions| == |m.refs| && Backed(m.memory) && AllExecutable(instructions)
    ensures var step := Interpret(instructions[index], index, m);
            && |step.m.refs| == |m.refs| && Backed(step.m.memory)
            && RunFrom(instructions, index, m) == Continued(instructions, index, step)
  {
    InterpretStaysBacked(instructions[index], index, m);
  }

  lemma {:induction false} RunAgrees(instructions: seq<Instruction>, index: nat, a: Machine, b: Machine, effects: seq<Effect>)
    requires index <= |instructions| == |a.refs| && |b.refs| == |a.refs|
    requires Backed(a.memory) && Backed(b.memory) && AllExecutable(instructions) && AllIn(instructions, effects)
    requires MachinesAgree(effects, a, b)
    ensures var x, y := RunFrom(instructions, index, a), RunFrom(instructions, index, b);
            StepsAgree(effects, x.0, y.0) && x.1 == y.1
    decreases |instructions| - index, 1
  {
    if index < |instructions| {
      RunContinues(instructions, index, a);
      RunContinues(instructions, index, b);
      var i := instructions[index];
      assert Executable(i, index, |a.refs|) && i.AsEffect() in effects;
      InterpretAgrees(i, index, a, b, effects);
      ContinueAgrees(instructions, index, Interpret(i, index, a), Interpret(i, index, b), effects);
    }
  }

  /** Steps that agree stop alike, or go on alike. */
  lemma {:induction false} ContinueAgrees(instructions: seq<Instruction>, index: nat, x: Step, y: Step, effects: seq<Effect>)
    requires index < |instructions| == |x.m.refs| && |y.m.refs| == |x.m.refs|
    requires Backed(x.m.memory) && Backed(y.m.memory) && AllExecutable(instructions) && AllIn(instructions, effects)
    requires StepsAgree(effects, x, y)
    ensures var p, q := Continued(instructions, index, x), Continued(instructions, index, y);
            StepsAgree(effects, p.0, q.0) && p.1 == q.1
    decreases |instructions| - index, 0
  {
    if x.Next? {
      RunAgrees(instructions, index + 1, x.m, y.m, effects);
    }
  }

  lemma ModuleEffectsAllIn(m: Module)
    ensures AllIn(m.instructions, InstantiatedEffects(m))
  {
    forall k: nat | k < |m.instructions| ensures m.instructions[k].AsEffect() in InstantiatedEffects(m) {
      InstructionEffectInstantiated(m, k);
    }
  }

  lemma ExecuteChangesOnly(m: Module, certificate: Option<seq<Effect>>, sealed: Option<seq<Effect>>, memory: Allocations)
    requires Backed(memory)
    ensures ChangesOnly(InstantiatedEffects(m), memory, Execute(m, certificate, sealed, memory).0)
  {
    ModuleEffectsAllIn(m);
    if Verified(m) {
      VerifiedExecutable(m);
      RunChangesOnly(m.instructions, 0, Start(memory, |m.instructions|), InstantiatedEffects(m));
    }
  }

  lemma ExecuteAgrees(
    m: Module, certificate: Option<seq<Effect>>, sealed: Option<seq<Effect>>, a: Allocations, b: Allocations)
    requires Backed(a) && Backed(b) && Agree(InstantiatedEffects(m), a, b)
    ensures var x, y := Execute(m, certificate, sealed, a), Execute(m, certificate, sealed, b);
            x.1 == y.1 && Agree(InstantiatedEffects(m), x.0, y.0)
  {
    ModuleEffectsAllIn(m);
    if Verified(m) {
      VerifiedExecutable(m);
      var n := |m.instructions|;
      RunAgrees(m.instructions, 0, Start(a, n), Start(b, n), InstantiatedEffects(m));
    }
  }

  lemma VerifiedEffectsFit(m: Module)
    requires Verified(m)
    ensures forall e | e in InstantiatedEffects(m) :: e.Fits() && e.size != 0
  {
    forall e | e in InstantiatedEffects(m) ensures e.Fits() && e.size != 0 {
      var k := InstantiatedComesFrom(m, e);
      assert WellFormedInstruction(m, k);
    }
  }

  /** Without a conflict, what one module writes the other does not touch. */
  lemma WritesMissOther(writer: Module, other: Module, memory: Allocations, id: U64, k: nat)
    requires Verified(writer) && Verified(other)
    requires !TasksConflict(InstantiatedEffects(writer), InstantiatedEffects(other))
    requires Written(InstantiatedEffects(writer), memory, id, k)
    ensures !Touched(InstantiatedEffects(other), memory, id, k)
  {
    VerifiedEffectsFit(writer);
    VerifiedEffectsFit(other);
    var ws, os := InstantiatedEffects(writer), InstantiatedEffects(other);
    var w :| w in ws && Mutating(w.access) && Hits(w, memory, id, k);
    forall e | e in os ensures !Hits(e, memory, id, k) {
      ConflictMeaning(w, e);
      NoConflictingPair(ws, os, w, e);
    }
  }

  lemma ChangesOnlyAgrees(writer: Module, other: Module, before: Allocations, after: Allocations)
    requires Verified(writer) && Verified(other)
    requires !TasksConflict(InstantiatedEffects(writer), InstantiatedEffects(other))
    requires ChangesOnly(InstantiatedEffects(writer), before, after)
    ensures Agree(InstantiatedEffects(other), before, after)
  {
    forall id, k: nat | id in before && k < |before[id].bytes| && Touched(InstantiatedEffects(other), before, id, k)
      ensures before[id].bytes[k] == after[id].bytes[k]
    {
      if before[id].bytes[k] != after[id].bytes[k] {
        WritesMissOther(writer, other, before, id, k);
      }
    }
  }

  /** Executions of modules whose effects do not conflict commute, faults included. */
  lemma ExecutionsCommute(
    m1: Module, m2: Module, certificate: Option<seq<Effect>>, s1: Option<seq<Effect>>, s2: Option<seq<Effect>>,
    memory: Allocations)
    requires Backed(memory)
    requires !TasksConflict(InstantiatedEffects(m1), InstantiatedEffects(m2))
    ensures var x1, x2 := Execute(m1, certificate, s1, memory), Execute(m2, certificate, s2, memory);
            var y2, y1 := Execute(m2, certificate, s2, x1.0), Execute(m1, certificate, s1, x2.0);
            y2.0 == y1.0 && x1.1 == y1.1 && x2.1 == y2.1
  {
    if Verified(m1) && Verified(m2) {
      var x1, x2 := Execute(m1, certificate, s1, memory), Execute(m2, certificate, s2, memory);
      var y2, y1 := Execute(m2, certificate, s2, x1.0), Execute(m1, certificate, s1, x2.0);
      TasksConflictSymmetric(InstantiatedEffects(m1), InstantiatedEffects(m2));
      ExecuteChangesOnly(m1, certificate, s1, memory);
      ExecuteChangesOnly(m2, certificate, s2, memory);
      ExecuteChangesOnly(m2, certificate, s2, x1.0);
      ExecuteChangesOnly(m1, certificate, s1, x2.0);
      ChangesOnlyAgrees(m1, m2, memory, x1.0);
      ChangesOnlyAgrees(m2, m1, memory, x2.0);
      ExecuteAgrees(m1, certificate, s1, memory, x2.0);
      ExecuteAgrees(m2, certificate, s2, memory, x1.0);
      forall id | id in memory ensures y2.0[id] == y1.0[id] {
        SameEverywhere(m1, m2, memory, x1.0, x2.0, y2.0, y1.0, id);
      }
    }
  }

  lemma SameEverywhere(
    m1: Module, m2: Module, m: Allocations, x1: Allocations, x2: Allocations, y2: Allocations, y1: Allocations, id: U64)
    requires Verified(m1) && Verified(m2) && id in m
    requires !TasksConflict(InstantiatedEffects(m1), InstantiatedEffects(m2))
    requires !TasksConflict(InstantiatedEffects(m2), InstantiatedEffects(m1))
    requires ChangesOnly(InstantiatedEffects(m1), m, x1) && ChangesOnly(InstantiatedEffects(m2), x1, y2)
    requires ChangesOnly(InstantiatedEffects(m2), m, x2) && ChangesOnly(InstantiatedEffects(m1), x2, y1)
    requires Agree(InstantiatedEffects(m1), x1, y1) && Agree(InstantiatedEffects(m2), x2, y2)
    ensures id in y1 && id in y2 && y2[id] == y1[id]
  {
    SameShapeSameEpoch(m, x1, id);
    SameShapeSameEpoch(m, x2, id);
    assert m[id].Shape() == x1[id].Shape() == y2[id].Shape();
    assert m[id].Shape() == x2[id].Shape() == y1[id].Shape();
    forall k: nat | k < |m[id].bytes| ensures y2[id].bytes[k] == y1[id].bytes[k] {
      if Written(InstantiatedEffects(m1), m, id, k) {
        WritesMissOther(m1, m2, m, id, k);
        assert !Touched(InstantiatedEffects(m2), x1, id, k) by { TouchedShape(InstantiatedEffects(m2), m, x1, id, k); }
        WrittenTouched(InstantiatedEffects(m2), x1, id, k);
        WrittenTouched(InstantiatedEffects(m1), m, id, k);
        TouchedShape(InstantiatedEffects(m1), m, x1, id, k);
      } else if Written(InstantiatedEffects(m2), m, id, k) {
        WritesMissOther(m2, m1, m, id, k);
        assert !Touched(InstantiatedEffects(m1), x2, id, k) by { TouchedShape(InstantiatedEffects(m1), m, x2, id, k); }
        WrittenTouched(InstantiatedEffects(m1), x2, id, k);
        WrittenTouched(InstantiatedEffects(m2), m, id, k);
        TouchedShape(InstantiatedEffects(m2), m, x2, id, k);
      } else {
        WrittenShape(InstantiatedEffects(m1), m, x2, id, k);
        WrittenShape(InstantiatedEffects(m2), m, x1, id, k);
      }
    }
    assert y2[id].bytes == y1[id].bytes;
    assert y2[id] == y2[id].Shape().(bytes := y2[id].bytes);
    assert y1[id] == y1[id].Shape().(bytes := y1[id].bytes);
  }

  lemma WrittenTouched(effects: seq<Effect>, m: Allocations, id: U64, k: nat)
    ensures Written(effects, m, id, k) ==> Touched(effects, m, id, k)
  {}

  lemma TouchedShape(effects: seq<Effect>, a: Allocations, b: Allocations, id: U64, k: nat)
    requires SameShape(a, b) && id in a
    ensures Touched(effects, a, id, k) <==> Touched(effects, b, id, k)
  {
    SameShapeSameEpoch(a, b, id);
    forall e | e in effects ensures Hits(e, a, id, k) == Hits(e, b, id, k) {}
  }

  lemma WrittenShape(effects: seq<Effect>, a: Allocations, b: Allocations, id: U64, k: nat)
    requires SameShape(a, b) && id in a
    ensures Written(effects, a, id, k) <==> Written(effects, b, id, k)
  {
    SameShapeSameEpoch(a, b, id);
    forall e | e in effects ensures Hits(e, a, id, k) == Hits(e, b, id, k) {}
  }
}
