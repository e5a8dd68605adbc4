/** A module's text keeps everything that its execution depends on (src/ir/ir.cpp,
    src/backends/reference/reference_executor.cpp). */
module IrMeaning {
  import opened Ir
  import opened Arenas
  import opened Wrappers
  import opened Interpreter
  import opened Footprint
  import opened Json
  import opened IrText

  // ------------------------------------------------------------ what is not written does not matter

  lemma NormalizedInterprets(i: Instruction, index: nat, m: Machine)
    requires Backed(m.memory) && Executable(i, index, |m.refs|)
    ensures Executable(Normalized(i), index, |m.refs|)
    ensures Interpret(Normalized(i), index, m) == Interpret(i, index, m)
  {
    assert Normalized(i).AsEffect() == i.AsEffect();
  }

  lemma {:induction false} NormalizedRuns(a: seq<Instruction>, b: seq<Instruction>, index: nat, m: Machine)
    requires index <= |a| == |m.refs| && Backed(m.memory) && b == NormalizedAll(a)
    requires AllExecutable(a) && AllExecutable(b)
    ensures RunFrom(a, index, m) == RunFrom(b, index, m)
    decreases |a| - index, 1
  {
    if index < |a| {
      RunContinues(a, index, m);
      RunContinues(b, index, m);
      assert Executable(a[index], index, |m.refs|);
      NormalizedInterprets(a[index], index, m);
      NormalizedContinues(a, b, index, Interpret(a[index], index, m));
    }
  }

  lemma {:induction false} NormalizedContinues(a: seq<Instruction>, b: seq<Instruction>, index: nat, step: Step)
    requires index < |a| == |step.m.refs| && Backed(step.m.memory) && b == NormalizedAll(a)
    requires AllExecutable(a) && AllExecutable(b)
    ensures Continued(a, index, step) == Continued(b, index, step)
    decreases |a| - index, 0
  {
    if step.Next? {
      NormalizedRuns(a, b, index + 1, step.m);
    }
  }

  lemma {:induction false} NormalizedEffects(instructions: seq<Instruction>)
    ensures DirectEffects(NormalizedAll(instructions)) == DirectEffects(instructions)
  {
    if instructions != [] {
      var n := |instructions| - 1;
      NormalizedEffects(instructions[..n]);
      assert NormalizedAll(instructions)[..n] == NormalizedAll(instructions[..n]);
      assert NormalizedAll(instructions)[n] == Normalized(instructions[n]);
    }
  }

  /** A module and what is read back from its text execute alike: bytes, trace, fault and all. */
  lemma NormalizedExecutes(m: Module, certificate: Option<seq<Effect>>, sealed: Option<seq<Effect>>, memory: Allocations)
    requires Backed(memory)
    ensures Execute(NormalizedModule(m), certificate, sealed, memory) == Execute(m, certificate, sealed, memory)
  {
    VerifiedSurvives(m);
    NormalizedEffects(m.instructions);
    if Verified(m) {
      VerifiedExecutable(m);
      VerifiedExecutable(NormalizedModule(m));
      NormalizedRuns(m.instructions, NormalizedAll(m.instructions), 0, Start(memory, |m.instructions|));
    }
  }

  // ------------------------------------------------------------ what is written can be told

  /** Alike in everything but the value of an instruction that writes none and the operand of one that dereferences
      nothing. */
  predicate SameInstruction(a: Instruction, b: Instruction) {
    && a.op == b.op && a.allocation == b.allocation && a.offset == b.offset && a.size == b.size
    && a.generation == b.generation && a.epoch == b.epoch && a.source == b.source
    && (a.op.Store? || a.op.StoreVia? || a.op.AtomicAdd? ==> a.value == b.value)
    && (a.op.LoadVia? || a.op.StoreVia? ==> a.refOperand == b.refOperand)
  }

  ghost predicate SameModule(a: Module, b: Module) {
    && a.version == b.version && a.rootSchema == b.rootSchema
    && a.declaredEffects == b.declaredEffects && a.declaredPointerEdges == b.declaredPointerEdges
    && |a.instructions| == |b.instructions|
    && forall k | 0 <= k < |a.instructions| :: SameInstruction(a.instructions[k], b.instructions[k])
  }

  lemma SameModuleExactly(a: Module, b: Module)
    ensures SameModule(a, b) <==> NormalizedModule(a) == NormalizedModule(b)
  {
    var x, y := NormalizedAll(a.instructions), NormalizedAll(b.instructions);
    if |a.instructions| == |b.instructions| {
      forall k | 0 <= k < |x| ensures x[k] == y[k] <==> SameInstruction(a.instructions[k], b.instructions[k]) {
        assert x[k] == Normalized(a.instructions[k]) && y[k] == Normalized(b.instructions[k]);
      }
    }
  }

  ghost predicate Serialisable(m: Module) {
    Writable(ModuleValue(m)) && ModuleFits(m) && ProperOps(m)
  }

  /** Two modules have the same text exactly when they are the same but for what no operation of theirs uses. */
  lemma TextTellsModules(a: Module, b: Module)
    requires Serialisable(a) && Serialisable(b)
    ensures Print(ModuleValue(a)) == Print(ModuleValue(b)) <==> SameModule(a, b)
  {
    TextRoundTrip(a);
    TextRoundTrip(b);
    SameModuleExactly(a, b);
    NormalizedSameValue(a);
    NormalizedSameValue(b);
  }
}
