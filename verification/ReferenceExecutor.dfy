/** The reference executor's loops over an arena (src/backends/reference/reference_executor.cpp),
    and the effect soundness of what they do. */
module ReferenceExecutor {
  import opened Ir
  import opened Arenas
  import opened Bytes
  import opened Wrappers
  import opened Interpreter
  import opened Footprint
  import opened ArenaStore

  /** Writes `size` copies of the low byte of `value`, one byte at a time. */
  method StoreBytes(arena: Arena, id: U64, offset: nat, size: nat, value: I64)
    requires id in arena.allocations && offset + size <= |arena.allocations[id].bytes|
    modifies arena`allocations
    ensures arena.allocations == Patch(old(arena.allocations), id, offset, Fill(size, LowByte(value)))
  {
    ghost var before := arena.allocations;
    assert Overlay(before[id].bytes, offset, Fill(0, LowByte(value))) == before[id].bytes;
    for k := 0 to size
      invariant arena.allocations == Patch(before, id, offset, Fill(k, LowByte(value)))
    {
      var a := arena.allocations[id];
      arena.allocations := arena.allocations[id := a.(bytes := a.bytes[offset + k := LowByte(value)])];
      assert arena.allocations[id].bytes == Overlay(before[id].bytes, offset, Fill(k + 1, LowByte(value)));
    }
  }

  /** What one instruction reports besides its changes: nothing, or why it stopped. */
  datatype Outcome = Continued | Stopped(effect: Effect, code: FaultCode)

  ghost predicate Reports(step: Step, machine: Machine, outcome: Outcome) {
    && step.m == machine
    && (step.Next? <==> outcome.Continued?)
    && (step.Stop? ==> outcome == Stopped(step.effect, step.code))
  }

  method InterpretInstruction(
    i: Instruction, index: nat, arena: Arena, refs: array<PointerRef>, producedBefore: bool, traceBefore: seq<Effect>)
    returns (outcome: Outcome, produced: bool, trace: seq<Effect>)
    requires Backed(arena.allocations) && Executable(i, index, refs.Length)
    modifies arena`allocations, refs
    ensures Reports(
              Interpret(i, index, Machine(old(arena.allocations), old(refs[..]), producedBefore, traceBefore)),
              Machine(arena.allocations, refs[..], produced, trace), outcome)
  {
    outcome, produced, trace := Continued, producedBefore, traceBefore;
    if !Accessible(i, arena.allocations) {
      return Stopped(Effect(i.allocation, i.offset, i.size, Read, i.epoch), StaleOrBounds), produced, trace;
    }
    var effect := i.AsEffect();
    trace := trace + [effect];
    match i.op
    case LoadRef =>
      if i.size != POINTER_REF_BYTES {
        return Stopped(effect, PointerRefWidth), produced, trace;
      }
      refs[index] := DecodeRef(Slice(arena.allocations, i.allocation, i.offset, i.size));
    case LoadVia =>
      if refs[i.refOperand - 1] != PointerRef(i.allocation, i.generation) {
        return Stopped(effect, DanglingPointerRef), produced, trace;
      }
    case StoreVia =>
      if refs[i.refOperand - 1] != PointerRef(i.allocation, i.generation) {
        return Stopped(effect, DanglingPointerRef), produced, trace;
      }
      StoreBytes(arena, i.allocation, i.offset, i.size, i.value);
      produced := true;
    case Store =>
      StoreBytes(arena, i.allocation, i.offset, i.size, i.value);
      produced := true;
    case AtomicAdd =>
      if i.size != 8 {
        return Stopped(effect, AtomicWidth), produced, trace;
      }
      var sum := AddWrapping(DecodeLe(Slice(arena.allocations, i.allocation, i.offset, 8)), i.value);
      var a := arena.allocations[i.allocation];
      arena.allocations :=
        arena.allocations[i.allocation := a.(bytes := Overlay(a.bytes, i.offset, EncodeLe(sum, 8)))];
      produced := true;
    case Load | PublishOp | UnknownOp(_) =>
  }

  method CollectMissing(certificate: seq<Effect>, effects: seq<Effect>) returns (missing: seq<Effect>)
    ensures missing == MissingEffects(certificate, effects)
  {
    missing := [];
    for k := 0 to |effects|
      invariant missing == MissingEffects(certificate, effects[..k])
    {
      assert effects[..k + 1][..k] == effects[..k];
      if !CertificateCovers(certificate, effects[k]) {
        missing := missing + [effects[k]];
      }
    }
    assert effects[..|effects|] == effects;
  }

  /** Runs a module against an arena, stopping at the first fault. */
  method ExecuteModule(m: Module, arena: Arena, certificate: Option<seq<Effect>>, sealed: Option<seq<Effect>>)
    returns (result: ExecutionResult)
    requires Backed(arena.allocations)
    modifies arena`allocations
    ensures (arena.allocations, result) == Execute(m, certificate, sealed, old(arena.allocations))
  {
    var verified, inferred := Verify(m);
    if !verified {
      return ExecutionResult(false, Poisoned, [], [], Some(Fault(0, NO_EFFECT, IrInvalid)), true);
    }
    if certificate.Some? {
      var missing := CollectMissing(certificate.value, if sealed.Some? then sealed.value else inferred);
      if missing != [] {
        return ExecutionResult(false, Poisoned, [], missing, Some(Fault(0, missing[0], CertificateMiss)), false);
      }
    }
    VerifiedExecutable(m);
    result := RunInstructions(m, arena);
  }

  method RunInstructions(m: Module, arena: Arena) returns (result: ExecutionResult)
    requires Backed(arena.allocations) && Verified(m) && AllExecutable(m.instructions)
    modifies arena`allocations
    ensures var run := RunFrom(m.instructions, 0, Start(old(arena.allocations), |m.instructions|));
            arena.allocations == run.0.m.memory && result == Finish(run)
  {
    var count := |m.instructions|;
    var refs := new PointerRef[count](_ => PointerRef(0, 0));
    var produced, trace := false, [];
    ghost var whole := RunFrom(m.instructions, 0, Start(arena.allocations, count));
    assert refs[..] == Start(arena.allocations, count).refs;
    for index := 0 to count
      invariant Backed(arena.allocations)
      invariant RunFrom(m.instructions, index, Machine(arena.allocations, refs[..], produced, trace)) == whole
    {
      ghost var before := Machine(arena.allocations, refs[..], produced, trace);
      assert Executable(m.instructions[index], index, count);
      InterpretKeepsShape(m.instructions[index], index, before);
      var outcome;
      outcome, produced, trace := InterpretInstruction(m.instructions[index], index, arena, refs, produced, trace);
      if outcome.Stopped? {
        return ExecutionResult(false, if produced then PartiallyProduced else Poisoned, trace, [],
                               Some(Fault(index, outcome.effect, outcome.code)), false);
      }
    }
    result := ExecutionResult(true, Valid, trace, [], None, true);
  }

  // ------------------------------------------------------------ effect soundness

  /** Byte `k` of allocation `id` lies in a range of the certificate that grants writing or atomics. */
  ghost predicate GrantedByte(certificate: seq<Effect>, memory: Allocations, id: U64, k: nat) {
    exists range | range in certificate :: Mutating(range.access) && Hits(range, memory, id, k)
  }

  lemma {:induction false} NoneMissing(certificate: seq<Effect>, effects: seq<Effect>)
    ensures MissingEffects(certificate, effects) == [] <==> forall e | e in effects :: CertificateCovers(certificate, e)
  {
    if effects != [] {
      NoneMissing(certificate, effects[..|effects| - 1]);
      assert effects == effects[..|effects| - 1] + [effects[|effects| - 1]];
    }
  }

  /** An instruction that completes traces its effect; one that stops traces it or nothing. */
  lemma InterpretTraces(i: Instruction, index: nat, m: Machine)
    requires Backed(m.memory) && Executable(i, index, |m.refs|)
    ensures var step := Interpret(i, index, m);
            && (step.Next? ==> step.m.trace == m.trace + [i.AsEffect()])
            && (step.Stop? ==> step.m.trace == m.trace || step.m.trace == m.trace + [i.AsEffect()])
  {}

  /** The trace of a run is a prefix of the program's effects, all of them if the run completes. */
  lemma {:induction false} TraceIsProgramPrefix(instructions: seq<Instruction>, index: nat, m: Machine)
    requires index <= |instructions| == |m.refs|
    requires Backed(m.memory) && AllExecutable(instructions)
    requires m.trace == ProgramEffects(instructions)[..index]
    ensures var run := RunFrom(instructions, index, m);
            && run.0.m.trace <= ProgramEffects(instructions)
            && (run.0.Next? ==> run.0.m.trace == ProgramEffects(instructions))
    decreases |instructions| - index
  {
    if index < |instructions| {
      var i := instructions[index];
      assert Executable(i, index, |m.refs|);
      InterpretStaysBacked(i, index, m);
      InterpretTraces(i, index, m);
      var step := Interpret(i, index, m);
      var effects := ProgramEffects(instructions);
      assert effects[index] == i.AsEffect() && effects[..index + 1] == effects[..index] + [i.AsEffect()];
      if step.Next? {
        TraceIsProgramPrefix(instructions, index + 1, step.m);
      }
    }
  }

  /** Effect soundness.  Whether or not an execution against a certificate completes, every byte it
      changes is one the certificate grants writing or atomics on, and nothing else changes.  The trace
      of a completed execution is a permutation of the instantiated effects. */
  lemma ExecutionIsSound(m: Module, certificate: seq<Effect>, memory: Allocations)
    requires Backed(memory)
    ensures var (after, result) := Execute(m, Some(certificate), Some(InstantiatedEffects(m)), memory);
            && SameShape(memory, after)
            && (forall id, k: nat | id in memory && k < |memory[id].bytes| && memory[id].bytes[k] != after[id].bytes[k] ::
                  GrantedByte(certificate, memory, id, k))
            && result.trace <= ProgramEffects(m.instructions)
            && (result.ok ==> multiset(result.trace) == multiset(InstantiatedEffects(m)))
  {
    var effects := InstantiatedEffects(m);
    var (after, result) := Execute(m, Some(certificate), Some(effects), memory);
    ExecuteChangesOnly(m, Some(certificate), Some(effects), memory);
    NoneMissing(certificate, effects);
    InstantiatedIsProgram(m);
    if Verified(m) {
      VerifiedExecutable(m);
      TraceIsProgramPrefix(m.instructions, 0, Start(memory, |m.instructions|));
    }
    forall id, k: nat | id in memory && k < |memory[id].bytes| && memory[id].bytes[k] != after[id].bytes[k]
      ensures GrantedByte(certificate, memory, id, k)
    {
      var e :| e in effects && Mutating(e.access) && Hits(e, memory, id, k);
      var range :| range in certificate && EffectCovers(range, e);
      EffectCoversMeaning(range, e);
      assert Hits(range, memory, id, k);
    }
  }

  /** An execution is refused for its certificate exactly when some sealed effect is not covered, and
      then it leaves no trace and no change. */
  lemma CertificateMissExactly(m: Module, certificate: seq<Effect>, sealed: seq<Effect>, memory: Allocations)
    requires Backed(memory) && Verified(m)
    ensures var (after, result) := Execute(m, Some(certificate), Some(sealed), memory);
            var refused := result.fault.Some? && result.fault.value.code.CertificateMiss?;
            && (refused <==> exists e | e in sealed :: !CertificateCovers(certificate, e))
            && (refused ==> after == memory && result.trace == [] && !result.ok && result.missing != []
                            && forall e :: e in result.missing <==> e in sealed && !CertificateCovers(certificate, e))
  {
    NoneMissing(certificate, sealed);
    MissingMembers(certificate, sealed);
    VerifiedExecutable(m);
    StopCodes(m.instructions, 0, Start(memory, |m.instructions|));
  }

  lemma {:induction false} MissingMembers(certificate: seq<Effect>, effects: seq<Effect>)
    ensures forall e :: e in MissingEffects(certificate, effects) <==> e in effects && !CertificateCovers(certificate, e)
  {
    if effects != [] {
      MissingMembers(certificate, effects[..|effects| - 1]);
      assert effects == effects[..|effects| - 1] + [effects[|effects| - 1]];
    }
  }

  lemma InterpretCodes(i: Instruction, index: nat, m: Machine)
    requires Backed(m.memory) && Executable(i, index, |m.refs|)
    ensures var step := Interpret(i, index, m);
            step.Stop? ==> !step.code.CertificateMiss? && !step.code.IrInvalid?
  {}

  lemma {:induction false} StopCodes(instructions: seq<Instruction>, index: nat, m: Machine)
    requires index <= |instructions| == |m.refs|
    requires Backed(m.memory) && AllExecutable(instructions)
    ensures var step := RunFrom(instructions, index, m).0;
            step.Stop? ==> !step.code.CertificateMiss? && !step.code.IrInvalid?
    decreases |instructions| - index
  {
    if index < |instructions| {
      var i := instructions[index];
      assert Executable(i, index, |m.refs|);
      InterpretKeepsShape(i, index, m);
      InterpretCodes(i, index, m);
      var step := Interpret(i, index, m);
      if step.Next? {
        StopCodes(instructions, index + 1, step.m);
      }
    }
  }
}
