/** The byte interpreter (src/backends/reference/reference_executor.cpp), as a function on
    allocation contents and as the loop that updates an arena in place. */
module Interpreter {
  import opened Ir
  import opened Arenas
  import opened Bytes
  import opened Wrappers

  datatype FaultCode =
    IrInvalid | CertificateMiss | StaleOrBounds | PointerRefWidth | DanglingPointerRef | AtomicWidth

  datatype Fault = Fault(instruction: nat, effect: Effect, code: FaultCode)

  datatype Poison = Valid | PartiallyProduced | Poisoned

  const NO_EFFECT := Effect(0, 0, 0, NoAccess, 0)

  /** State between two instructions. */
  datatype Machine = Machine(memory: Allocations, refs: seq<PointerRef>, produced: bool, trace: seq<Effect>)

  datatype Step = Next(m: Machine) | Stop(m: Machine, effect: Effect, code: FaultCode)

  /** An instruction whose reference operand, if it uses one, names a slot of `refs`. */
  predicate Executable(i: Instruction, index: nat, refCount: nat) {
    index < refCount && (i.IsVia() ==> 1 <= i.refOperand <= refCount)
  }

  predicate AllExecutable(instructions: seq<Instruction>) {
    forall k: nat | k < |instructions| :: Executable(instructions[k], k, |instructions|)
  }

  predicate Accessible(i: Instruction, memory: Allocations) {
    && LiveRepresentation(memory, RepresentationRef(i.allocation, i.generation, i.epoch))
    && i.offset <= memory[i.allocation].size
    && i.size <= memory[i.allocation].size - i.offset
  }

  function Slice(memory: Allocations, id: U64, offset: nat, count: nat): seq<Byte>
    requires id in memory && offset + count <= |memory[id].bytes|
  {
    memory[id].bytes[offset..offset + count]
  }

  function Patch(memory: Allocations, id: U64, offset: nat, data: seq<Byte>): Allocations
    requires id in memory && offset + |data| <= |memory[id].bytes|
  {
    memory[id := memory[id].(bytes := Overlay(memory[id].bytes, offset, data))]
  }

  function DecodeRef(bytes: seq<Byte>): PointerRef
    requires |bytes| == POINTER_REF_BYTES
  {
    DecodeBound(bytes[..8]);
    DecodeBound(bytes[8..]);
    assert Power256(8) == TWO64 && Power256(4) == 0x1_0000_0000;
    PointerRef(DecodeLe(bytes[..8]), DecodeLe(bytes[8..]))
  }

  /** A reference as twelve bytes. */
  function Packed(r: PointerRef): (bytes: seq<Byte>)
    ensures |bytes| == POINTER_REF_BYTES
  {
    EncodeLe(r.allocation, 8) + EncodeLe(r.generation, 4)
  }

  /** Twelve bytes are read as a reference exactly when they are that reference, packed. */
  lemma PackedExactly(bytes: seq<Byte>, r: PointerRef)
    requires |bytes| == POINTER_REF_BYTES
    ensures DecodeRef(bytes) == r <==> bytes == Packed(r)
  {
    var low, high := bytes[..8], bytes[8..];
    assert bytes == low + high;
    assert Packed(r)[..8] == EncodeLe(r.allocation, 8) && Packed(r)[8..] == EncodeLe(r.generation, 4);
    assert Power256(8) == TWO64 && Power256(4) == 0x1_0000_0000;
    EncodeDecode(low);
    EncodeDecode(high);
    DecodeEncode(r.allocation, 8);
    DecodeEncode(r.generation, 4);
  }

  /** One instruction.  The access is traced before its width or its reference is checked. */
  function Interpret(i: Instruction, index: nat, m: Machine): Step
    requires Backed(m.memory) && Executable(i, index, |m.refs|)
  {
    if !Accessible(i, m.memory) then
      Stop(m, Effect(i.allocation, i.offset, i.size, Read, i.epoch), StaleOrBounds)
    else
      var effect := i.AsEffect();
      var traced := m.(trace := m.trace + [effect]);
      match i.op
      case LoadRef =>
        if i.size != POINTER_REF_BYTES then Stop(traced, effect, PointerRefWidth)
        else
          Next(traced.(refs := m.refs[index := DecodeRef(Slice(m.memory, i.allocation, i.offset, i.size))]))
      case LoadVia =>
        if m.refs[i.refOperand - 1] != PointerRef(i.allocation, i.generation) then
          Stop(traced, effect, DanglingPointerRef)
        else Next(traced)
      case StoreVia =>
        if m.refs[i.refOperand - 1] != PointerRef(i.allocation, i.generation) then
          Stop(traced, effect, DanglingPointerRef)
        else Next(Produce(traced, i, Fill(i.size, LowByte(i.value))))
      case Store => Next(Produce(traced, i, Fill(i.size, LowByte(i.value))))
      case AtomicAdd =>
        if i.size != 8 then Stop(traced, effect, AtomicWidth)
        else
          var sum := AddWrapping(DecodeLe(Slice(m.memory, i.allocation, i.offset, 8)), i.value);
          Next(Produce(traced, i, EncodeLe(sum, 8)))
      case Load | PublishOp | UnknownOp(_) => Next(traced)
  }

  function Produce(m: Machine, i: Instruction, data: seq<Byte>): Machine
    requires i.allocation in m.memory && i.offset + |data| <= |m.memory[i.allocation].bytes|
  {
    m.(memory := Patch(m.memory, i.allocation, i.offset, data), produced := true)
  }

  lemma InterpretKeepsShape(i: Instruction, index: nat, m: Machine)
    requires Backed(m.memory) && Executable(i, index, |m.refs|)
    ensures var s := Interpret(i, index, m);
            SameShape(m.memory, s.m.memory) && Backed(s.m.memory) && |s.m.refs| == |m.refs|
  {
    var after := Interpret(i, index, m).m.memory;
    forall id | id in m.memory
      ensures m.memory[id].Shape() == after[id].Shape() && |m.memory[id].bytes| == |after[id].bytes|
    {
    }
    forall id | id in after && after[id].state.Active? ensures |after[id].bytes| == after[id].size {
      assert m.memory[id].Shape() == after[id].Shape();
      assert m.memory[id].state == after[id].state && m.memory[id].size == after[id].size;
    }
  }

  lemma InterpretStaysBacked(i: Instruction, index: nat, m: Machine)
    requires Backed(m.memory) && Executable(i, index, |m.refs|)
    ensures Backed(Interpret(i, index, m).m.memory) && |Interpret(i, index, m).m.refs| == |m.refs|
  {
    InterpretKeepsShape(i, index, m);
  }

  /** The instructions from `index` on. */
  function RunFrom(instructions: seq<Instruction>, index: nat, m: Machine): (r: (Step, nat))
    requires index <= |instructions| == |m.refs|
    requires Backed(m.memory) && AllExecutable(instructions)
    ensures SameShape(m.memory, r.0.m.memory) && Backed(r.0.m.memory)
    decreases |instructions| - index
  {
    if index == |instructions| then (Next(m), index)
    else
      InterpretKeepsShape(instructions[index], index, m);
      match Interpret(instructions[index], index, m)
      case Stop(m', effect, code) => (Stop(m', effect, code), index)
      case Next(m') => RunFrom(instructions, index + 1, m')
  }

  datatype ExecutionResult = ExecutionResult(
    ok: bool, poison: Poison, trace: seq<Effect>, missing: seq<Effect>, fault: Option<Fault>, outputsValid: bool)

  function CertificateCovers(certificate: seq<Effect>, effect: Effect): bool {
    exists range | range in certificate :: EffectCovers(range, effect)
  }

  /** The sealed effects the certificate does not cover, in order. */
  function MissingEffects(certificate: seq<Effect>, effects: seq<Effect>): seq<Effect> {
    if effects == [] then [] else
    var n := |effects| - 1;
    MissingEffects(certificate, effects[..n]) + if CertificateCovers(certificate, effects[n]) then [] else [effects[n]]
  }

  function Start(memory: Allocations, count: nat): Machine {
    Machine(memory, seq(count, _ => PointerRef(0, 0)), false, [])
  }

  function Finish(run: (Step, nat)): ExecutionResult {
    match run.0
    case Next(m) => ExecutionResult(true, Valid, m.trace, [], None, true)
    case Stop(m, effect, code) =>
      ExecutionResult(false, if m.produced then PartiallyProduced else Poisoned, m.trace, [],
                      Some(Fault(run.1, effect, code)), false)
  }

  lemma VerifiedExecutable(m: Module)
    requires Verified(m)
    ensures AllExecutable(m.instructions)
  {
    forall k: nat | k < |m.instructions| ensures Executable(m.instructions[k], k, |m.instructions|) {
      assert WellFormedInstruction(m, k);
    }
  }

  /** A whole execution: verification, certificate check, then the instructions.
      No certificate means no check; no sealed effects means the inferred ones. */
  function Execute(m: Module, certificate: Option<seq<Effect>>, sealed: Option<seq<Effect>>, memory: Allocations)
    : (r: (Allocations, ExecutionResult))
    requires Backed(memory)
    ensures SameShape(memory, r.0) && Backed(r.0)
  {
    if !Verified(m) then
      (memory, ExecutionResult(false, Poisoned, [], [], Some(Fault(0, NO_EFFECT, IrInvalid)), true))
    else
      var effects := if sealed.Some? then sealed.value else DirectEffects(m.instructions);
      var missing := if certificate.Some? then MissingEffects(certificate.value, effects) else [];
      if missing != [] then
        (memory, ExecutionResult(false, Poisoned, [], missing, Some(Fault(0, missing[0], CertificateMiss)), false))
      else
        VerifiedExecutable(m);
        var run := RunFrom(m.instructions, 0, Start(memory, |m.instructions|));
        (run.0.m.memory, Finish(run))
  }
}
