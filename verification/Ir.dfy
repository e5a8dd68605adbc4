/** The byte-level instruction set: effects, instructions, and module verification
    (src/ir/ir.h, src/ir/ir.cpp). */
module Ir {

  const U32_MAX: int := 0xFFFF_FFFF
  const U64_MAX: int := 0xFFFF_FFFF_FFFF_FFFF
  const I64_MIN: int := -0x8000_0000_0000_0000
  const I64_MAX: int := 0x7FFF_FFFF_FFFF_FFFF
  const POINTER_REF_BYTES: nat := 12

  type U32 = x: int | 0 <= x <= U32_MAX
  type U64 = x: int | 0 <= x <= U64_MAX
  type I64 = x: int | I64_MIN <= x <= I64_MAX
  type Byte = x: int | 0 <= x < 256

  datatype Access = NoAccess | Read | Write | Atomic | Publish {
    /** The enumerator's bit in the source's flag encoding. */
    function Bits(): bv8 {
      match this
      case NoAccess => 0
      case Read => 1
      case Write => 2
      case Atomic => 4
      case Publish => 8
    }
  }

  datatype Effect = Effect(allocation: U64, offset: U64, size: U64, access: Access, epoch: U32) {
    /** The byte range ends inside the 64-bit address space. */
    predicate Fits() {
      offset <= U64_MAX - size
    }

    predicate Covers(k: int) {
      offset <= k < offset + size
    }
  }

  datatype Op = Load | Store | AtomicAdd | PublishOp | LoadRef | LoadVia | StoreVia | UnknownOp(name: string)

  datatype Instruction = Instruction(
    op: Op, allocation: U64, offset: U64, size: U64, value: I64, generation: U32, epoch: U32,
    refOperand: U64, source: string)
  {
    predicate IsVia() {
      op.LoadVia? || op.StoreVia?
    }

    function AsEffect(): Effect {
      Effect(allocation, offset, size, AccessFromOp(op), epoch)
    }
  }

  datatype PointerEdge = PointerEdge(fromAllocation: U64, fieldOffset: U64, toAllocation: U64)

  datatype Module = Module(
    version: U32, rootSchema: string, instructions: seq<Instruction>, declaredEffects: seq<Effect>,
    declaredPointerEdges: seq<PointerEdge>)

  /** What the interpreter records for an operation; unknown operations count as reads. */
  function AccessFromOp(op: Op): Access {
    match op
    case Load | LoadRef | LoadVia => Read
    case Store | StoreVia => Write
    case AtomicAdd => Atomic
    case PublishOp => Publish
    case UnknownOp(_) => Read
  }

  /** A declared effect authorises an actual one: same bytes' interpretation, the access
      granted, and the actual range inside the declared one. */
  predicate EffectCovers(declared: Effect, actual: Effect) {
    && declared.allocation == actual.allocation
    && declared.epoch == actual.epoch
    && (declared.access.Bits() & actual.access.Bits()) == actual.access.Bits()
    && actual.size != 0 && declared.size != 0 && declared.offset <= actual.offset
    && var relative := actual.offset - declared.offset;
       relative <= declared.size && actual.size <= declared.size - relative
  }

  /** Covering is range inclusion together with equality of access, except that every
      declaration covers an effect that asks for no access. */
  lemma EffectCoversMeaning(declared: Effect, actual: Effect)
    ensures EffectCovers(declared, actual) <==>
            && declared.allocation == actual.allocation && declared.epoch == actual.epoch
            && (declared.access == actual.access || actual.access.NoAccess?)
            && actual.size > 0
            && (forall k :: actual.Covers(k) ==> declared.Covers(k))
  {
    var inside := forall k :: actual.Covers(k) ==> declared.Covers(k);
    if actual.size > 0 {
      assert actual.Covers(actual.offset) && actual.Covers(actual.offset + actual.size - 1);
      if inside {
        assert declared.Covers(actual.offset) && declared.Covers(actual.offset + actual.size - 1);
      }
    }
  }

  predicate PointerEdgeCovers(m: Module, root: Instruction, via: Instruction) {
    exists edge | edge in m.declaredPointerEdges ::
      && edge.fromAllocation == root.allocation
      && edge.fieldOffset == root.offset
      && edge.toAllocation == via.allocation
  }

  predicate WellFormedInstruction(m: Module, index: nat)
    requires index < |m.instructions|
  {
    var i := m.instructions[index];
    && i.allocation != 0 && i.generation != 0 && i.size != 0 && i.offset <= U64_MAX - i.size
    && !i.op.UnknownOp?
    && (i.IsVia() ==>
          && 1 <= i.refOperand <= index
          && m.instructions[i.refOperand - 1].op.LoadRef?
          && PointerEdgeCovers(m, m.instructions[i.refOperand - 1], i))
  }

  predicate Declared(m: Module, effect: Effect) {
    exists declared | declared in m.declaredEffects :: EffectCovers(declared, effect)
  }

  /** What `verify` accepts. */
  predicate Verified(m: Module) {
    && m.version == 1 && m.rootSchema != "" && m.instructions != []
    && (forall index: nat | index < |m.instructions| :: WellFormedInstruction(m, index))
    && (forall index: nat | index < |m.instructions| && !m.instructions[index].IsVia() ::
          Declared(m, m.instructions[index].AsEffect()))
  }

  /** Effects of the instructions that name their target directly, in program order. */
  function DirectEffects(instructions: seq<Instruction>): seq<Effect> {
    if instructions == [] then [] else
    var last := instructions[|instructions| - 1];
    DirectEffects(instructions[..|instructions| - 1]) + if last.IsVia() then [] else [last.AsEffect()]
  }

  /** Effects of the dereferencing instructions, in program order. */
  function ViaEffects(instructions: seq<Instruction>): seq<Effect> {
    if instructions == [] then [] else
    var last := instructions[|instructions| - 1];
    ViaEffects(instructions[..|instructions| - 1]) + if last.IsVia() then [last.AsEffect()] else []
  }

  /** All effects of one node, as the plan instantiates them: direct ones first. */
  function InstantiatedEffects(m: Module): seq<Effect> {
    DirectEffects(m.instructions) + ViaEffects(m.instructions)
  }

  /** All effects in program order. */
  function ProgramEffects(instructions: seq<Instruction>): (r: seq<Effect>)
    ensures |r| == |instructions|
    ensures forall k | 0 <= k < |r| :: r[k] == instructions[k].AsEffect()
  {
    seq(|instructions|, k requires 0 <= k < |instructions| => instructions[k].AsEffect())
  }

  lemma {:induction false} EffectsArePermuted(instructions: seq<Instruction>)
    ensures multiset(DirectEffects(instructions) + ViaEffects(instructions)) == multiset(ProgramEffects(instructions))
  {
    if instructions != [] {
      var front, last := instructions[..|instructions| - 1], instructions[|instructions| - 1];
      EffectsArePermuted(front);
      assert ProgramEffects(instructions) == ProgramEffects(front) + [last.AsEffect()];
      PermutedStep(DirectEffects(front), ViaEffects(front), ProgramEffects(front), last.AsEffect(), last.IsVia());
    }
  }

  lemma PermutedStep(direct: seq<Effect>, via: seq<Effect>, program: seq<Effect>, e: Effect, isVia: bool)
    requires multiset(direct + via) == multiset(program)
    ensures multiset((direct + if isVia then [] else [e]) + (via + if isVia then [e] else [])) == multiset(program + [e])
  {
    if isVia {
      assert (direct + []) + (via + [e]) == (direct + via) + [e];
    } else {
      assert multiset((direct + [e]) + (via + [])) == multiset(direct) + multiset{e} + multiset(via);
      assert multiset(direct + via) == multiset(direct) + multiset(via);
    }
  }

  /** Instantiation loses no effect and invents none. */
  lemma InstantiatedIsProgram(m: Module)
    ensures multiset(InstantiatedEffects(m)) == multiset(ProgramEffects(m.instructions))
  {
    EffectsArePermuted(m.instructions);
  }

  lemma InstructionEffectInstantiated(m: Module, index: nat)
    requires index < |m.instructions|
    ensures m.instructions[index].AsEffect() in InstantiatedEffects(m)
  {
    InstantiatedIsProgram(m);
    var e := m.instructions[index].AsEffect();
    assert ProgramEffects(m.instructions)[index] == e;
    assert e in multiset(ProgramEffects(m.instructions));
    assert e in multiset(InstantiatedEffects(m));
  }

  lemma InstantiatedComesFrom(m: Module, e: Effect) returns (index: nat)
    requires e in InstantiatedEffects(m)
    ensures index < |m.instructions| && m.instructions[index].AsEffect() == e
  {
    InstantiatedIsProgram(m);
    assert e in multiset(InstantiatedEffects(m));
    assert e in multiset(ProgramEffects(m.instructions));
    index :| index < |m.instructions| && ProgramEffects(m.instructions)[index] == e;
  }

  /** The instruction-by-instruction check; the inferred effects are those of the direct
      accesses.  On success they are complete, on failure they stop at the first defect. */
  method Verify(m: Module) returns (ok: bool, inferred: seq<Effect>)
    ensures ok <==> Verified(m)
    ensures ok ==> inferred == DirectEffects(m.instructions)
  {
    inferred := [];
    if m.version != 1 || m.rootSchema == "" || m.instructions == [] {
      return false, inferred;
    }
    var index := 0;
    while index < |m.instructions|
      invariant 0 <= index <= |m.instructions|
      invariant forall k: nat | k < index :: WellFormedInstruction(m, k)
      invariant inferred == DirectEffects(m.instructions[..index])
    {
      var i := m.instructions[index];
      if i.allocation == 0 || i.generation == 0 || i.size == 0 || i.offset > U64_MAX - i.size || i.op.UnknownOp? {
        assert !WellFormedInstruction(m, index);
        return false, inferred;
      }
      assert m.instructions[..index + 1][..index] == m.instructions[..index];
      if i.IsVia() {
        if i.refOperand < 1 || i.refOperand > index {
          assert !WellFormedInstruction(m, index);
          return false, inferred;
        }
        var root := m.instructions[i.refOperand - 1];
        if !root.op.LoadRef? || !PointerEdgeCovers(m, root, i) {
          assert !WellFormedInstruction(m, index);
          return false, inferred;
        }
      } else {
        inferred := inferred + [i.AsEffect()];
      }
      index := index + 1;
    }
    assert m.instructions[..index] == m.instructions;
    DirectEffectsMeaning(m.instructions);
    ok := forall actual | actual in inferred :: Declared(m, actual);
  }

  lemma {:induction false} DirectEffectsMeaning(instructions: seq<Instruction>)
    ensures forall e :: e in DirectEffects(instructions) <==>
              exists k :: 0 <= k < |instructions| && !instructions[k].IsVia() && instructions[k].AsEffect() == e
  {
    if instructions != [] {
      var n := |instructions| - 1;
      var front := instructions[..n];
      DirectEffectsMeaning(front);
      forall e ensures e in DirectEffects(instructions) <==>
        exists k :: 0 <= k < |instructions| && !instructions[k].IsVia() && instructions[k].AsEffect() == e
      {
        if e in DirectEffects(front) {
          var k :| 0 <= k < n && !front[k].IsVia() && front[k].AsEffect() == e;
          assert instructions[k].AsEffect() == e;
        }
        if k :| 0 <= k < |instructions| && !instructions[k].IsVia() && instructions[k].AsEffect() == e {
          if k < n {
            assert front[k].AsEffect() == e;
          }
        }
      }
    }
  }
}
