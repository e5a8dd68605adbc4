/** What an execution does, instruction by instruction: the bytes each completed one leaves, and exactly when and how
    the run stops (src/backends/reference/reference_executor.cpp). */
module ExecutionHistories {
  import opened Ir
  import opened Arenas
  import opened Bytes
  import opened Wrappers
  import opened Interpreter
  import opened Footprint
  import ReferenceExecutor

  // ------------------------------------------------------------ one instruction

  /** The access names a live representation and stays inside its allocation. */
  ghost predicate InBounds(i: Instruction, memory: Allocations) {
    && i.allocation in memory && memory[i.allocation].state.Active?
    && memory[i.allocation].generation == i.generation && memory[i.allocation].epoch == i.epoch
    && i.offset + i.size <= memory[i.allocation].size
  }

  predicate Writes(i: Instruction) {
    i.op.Store? || i.op.StoreVia? || i.op.AtomicAdd?
  }

  /** Byte `k` of allocation `id` is one the instruction writes. */
  predicate WritesByte(i: Instruction, id: U64, k: nat) {
    Writes(i) && id == i.allocation && i.offset <= k < i.offset + i.size
  }

  /** A store leaves the low byte of its value in every byte of its range, an atomic the sum modulo 2^64 in its word,
      and nothing else changes. */
  ghost predicate Performed(i: Instruction, before: Allocations, after: Allocations) {
    && SameShape(before, after) && i.allocation in before && i.offset + i.size <= |before[i.allocation].bytes|
    && (forall id, k: nat | id in before && k < |before[id].bytes| && !WritesByte(i, id, k) ::
          after[id].bytes[k] == before[id].bytes[k])
    && (i.op.Store? || i.op.StoreVia? ==>
          forall k: nat | i.offset <= k < i.offset + i.size :: after[i.allocation].bytes[k] == i.value % 256)
    && (i.op.AtomicAdd? ==> WordAt(after, i) == (WordAt(before, i) + i.value) % TWO64)
  }

  /** The number that the range spells, least significant byte first. */
  ghost function WordAt(memory: Allocations, i: Instruction): int
    requires i.allocation in memory && i.offset + i.size <= |memory[i.allocation].bytes|
  {
    DecodeLe(memory[i.allocation].bytes[i.offset..i.offset + i.size])
  }

  lemma SumFits(a: nat, b: int)
    ensures DecodeLe(EncodeLe(AddWrapping(a, b), 8)) == (a + b) % TWO64
  {
    assert Power256(8) == TWO64;
    DecodeEncode(AddWrapping(a, b), 8);
  }

  /** Patching the range changes those bytes and no others. */
  lemma PatchPerforms(i: Instruction, before: Allocations, data: seq<Byte>)
    requires Writes(i) && i.allocation in before && i.offset + i.size <= |before[i.allocation].bytes| && |data| == i.size
    requires i.op.AtomicAdd? ==> DecodeLe(data) == (WordAt(before, i) + i.value) % TWO64
    requires !i.op.AtomicAdd? ==> forall k | 0 <= k < i.size :: data[k] == i.value % 256
    ensures Performed(i, before, Patch(before, i.allocation, i.offset, data))
  {
    var after := Patch(before, i.allocation, i.offset, data);
    assert after[i.allocation].bytes[i.offset..i.offset + i.size] == data;
    forall id | id in before ensures before[id].Shape() == after[id].Shape() && |before[id].bytes| == |after[id].bytes| {}
  }

  lemma CompletedPerforms(i: Instruction, index: nat, m: Machine)
    requires Backed(m.memory) && Executable(i, index, |m.refs|) && Interpret(i, index, m).Next?
    ensures Performed(i, m.memory, Interpret(i, index, m).m.memory)
    ensures Interpret(i, index, m).m.produced == (m.produced || Writes(i))
  {
    if i.op.AtomicAdd? {
      var word := DecodeLe(Slice(m.memory, i.allocation, i.offset, 8));
      SumFits(word, i.value);
      PatchPerforms(i, m.memory, EncodeLe(AddWrapping(word, i.value), 8));
    } else if Writes(i) {
      PatchPerforms(i, m.memory, Fill(i.size, LowByte(i.value)));
    }
  }

  // ------------------------------------------------------------ a history

  /** The twelve bytes that the reference load covers are the packed target. */
  ghost predicate HeldTarget(root: Instruction, memory: Allocations, target: PointerRef) {
    && root.allocation in memory && root.offset + 12 <= |memory[root.allocation].bytes|
    && memory[root.allocation].bytes[root.offset..root.offset + 12] == Packed(target)
  }

  /** Instruction `k` of a run can complete: its access is in bounds, its width fits its operation, and if it
      dereferences, the reference load it names found its target when it ran. */
  ghost predicate Completes(instructions: seq<Instruction>, memories: seq<Allocations>, k: nat)
    requires k < |instructions| && k < |memories|
  {
    var i := instructions[k];
    && InBounds(i, memories[k])
    && (i.op.LoadRef? ==> i.size == 12)
    && (i.op.AtomicAdd? ==> i.size == 8)
    && (i.IsVia() ==>
          && 1 <= i.refOperand <= k
          && HeldTarget(instructions[i.refOperand - 1], memories[i.refOperand - 1], PointerRef(i.allocation, i.generation)))
  }

  /** `memories[k]` is what instruction `k` met; all but the last completed. */
  ghost predicate IsHistory(instructions: seq<Instruction>, memories: seq<Allocations>) {
    && 1 <= |memories| <= |instructions| + 1
    && forall k: nat | k + 1 < |memories| ::
         Completes(instructions, memories, k) && Performed(instructions[k], memories[k], memories[k + 1])
  }

  /** Why an instruction that cannot complete stops the run. */
  ghost function StopCode(i: Instruction, memory: Allocations): FaultCode {
    if !InBounds(i, memory) then StaleOrBounds
    else if i.op.LoadRef? then PointerRefWidth
    else if i.op.AtomicAdd? then AtomicWidth
    else DanglingPointerRef
  }

  /** An access that is not in bounds is reported as a read. */
  ghost function StopEffect(i: Instruction, memory: Allocations): Effect {
    Effect(i.allocation, i.offset, i.size, if InBounds(i, memory) then i.AsEffect().access else Read, i.epoch)
  }

  /** The accesses of the completed instructions and, if it was in bounds, of the one that stopped the run. */
  ghost function TraceOf(instructions: seq<Instruction>, memories: seq<Allocations>): seq<Effect>
    requires 1 <= |memories| <= |instructions| + 1
  {
    var k := |memories| - 1;
    ProgramEffects(if k < |instructions| && InBounds(instructions[k], memories[k]) then instructions[..k + 1] else instructions[..k])
  }

  /** Every dereference names an earlier reference load, as verified modules have it. */
  predicate RootsFirst(instructions: seq<Instruction>) {
    forall k: nat | k < |instructions| && instructions[k].IsVia() ::
      1 <= instructions[k].refOperand <= k && instructions[instructions[k].refOperand - 1].op.LoadRef?
  }

  /** The references loaded so far are those the bytes spelled. */
  ghost predicate RefsFollow(instructions: seq<Instruction>, memories: seq<Allocations>, refs: seq<PointerRef>) {
    && |refs| == |instructions|
    && forall j: nat | j + 1 < |memories| && j < |instructions| && instructions[j].op.LoadRef? ::
         HeldTarget(instructions[j], memories[j], refs[j])
  }

  /** The machine state after the history's completed instructions. */
  ghost predicate Describes(instructions: seq<Instruction>, memories: seq<Allocations>, m: Machine) {
    && IsHistory(instructions, memories) && RefsFollow(instructions, memories, m.refs)
    && m.memory == memories[|memories| - 1] && Backed(m.memory)
    && m.trace == ProgramEffects(instructions[..|memories| - 1])
    && (m.produced <==> exists j: nat :: j + 1 < |memories| && Writes(instructions[j]))
  }

  lemma PackedIsUnique(a: PointerRef, b: PointerRef)
    ensures Packed(a) == Packed(b) <==> a == b
  {
    PackedExactly(Packed(a), a);
    PackedExactly(Packed(a), b);
  }

  /** An instruction stops exactly when it cannot complete, and for the stated reason. */
  lemma StopsExactly(instructions: seq<Instruction>, memories: seq<Allocations>, m: Machine)
    requires |memories| <= |instructions| && Describes(instructions, memories, m)
    requires RootsFirst(instructions) && AllExecutable(instructions)
    ensures var k := |memories| - 1;
            var step := Interpret(instructions[k], k, m);
            && (step.Next? <==> Completes(instructions, memories, k))
            && (step.Stop? ==> step.code == StopCode(instructions[k], m.memory))
  {
    var k := |memories| - 1;
    var i := instructions[k];
    assert Executable(i, k, |m.refs|);
    if i.IsVia() {
      var j := i.refOperand - 1;
      assert HeldTarget(instructions[j], memories[j], m.refs[j]);
      PackedIsUnique(m.refs[j], PointerRef(i.allocation, i.generation));
    }
  }

  /** A completed instruction leaves the references as they were, except that a reference load adds its own. */
  lemma RefsAfter(i: Instruction, index: nat, m: Machine)
    requires Backed(m.memory) && Executable(i, index, |m.refs|) && Interpret(i, index, m).Next?
    ensures var after := Interpret(i, index, m).m.refs;
            && |after| == |m.refs| && (forall j | 0 <= j < |after| && j != index :: after[j] == m.refs[j])
            && (i.op.LoadRef? ==> HeldTarget(i, m.memory, after[index]))
  {
    if i.op.LoadRef? {
      var bytes := Slice(m.memory, i.allocation, i.offset, 12);
      PackedExactly(bytes, DecodeRef(bytes));
    }
  }

  lemma HistoryGrows(instructions: seq<Instruction>, memories: seq<Allocations>, m: Machine)
    requires |memories| <= |instructions| && Describes(instructions, memories, m)
    requires RootsFirst(instructions) && AllExecutable(instructions)
    requires Interpret(instructions[|memories| - 1], |memories| - 1, m).Next?
    ensures var next := Interpret(instructions[|memories| - 1], |memories| - 1, m).m;
            Describes(instructions, memories + [next.memory], next)
  {
    var k := |memories| - 1;
    var i := instructions[k];
    var next := Interpret(i, k, m).m;
    var longer := memories + [next.memory];
    assert Executable(i, k, |m.refs|);
    StopsExactly(instructions, memories, m);
    CompletedPerforms(i, k, m);
    RefsAfter(i, k, m);
    InterpretStaysBacked(i, k, m);
    LongerHistory(instructions, memories, next.memory);
    assert next.trace == m.trace + [i.AsEffect()];
    assert ProgramEffects(instructions[..k + 1]) == ProgramEffects(instructions[..k]) + [i.AsEffect()];
    forall j: nat | j + 1 < |longer| && j < |instructions| && instructions[j].op.LoadRef?
      ensures HeldTarget(instructions[j], longer[j], next.refs[j])
    {
      if j < k {
        assert HeldTarget(instructions[j], memories[j], m.refs[j]);
      }
    }
  }

  lemma LongerHistory(instructions: seq<Instruction>, memories: seq<Allocations>, last: Allocations)
    requires IsHistory(instructions, memories) && |memories| <= |instructions|
    requires Completes(instructions, memories, |memories| - 1)
    requires Performed(instructions[|memories| - 1], memories[|memories| - 1], last)
    ensures IsHistory(instructions, memories + [last])
  {
    var longer := memories + [last];
    forall k: nat | k + 1 < |longer|
      ensures Completes(instructions, longer, k) && Performed(instructions[k], longer[k], longer[k + 1])
    {
      SameCompletion(instructions, memories, longer, k);
      if k + 1 < |memories| {
        assert Completes(instructions, memories, k) && Performed(instructions[k], memories[k], memories[k + 1]);
      }
    }
  }

  lemma SameCompletion(instructions: seq<Instruction>, memories: seq<Allocations>, longer: seq<Allocations>, k: nat)
    requires memories <= longer && k < |memories| && k < |instructions|
    ensures Completes(instructions, memories, k) <==> Completes(instructions, longer, k)
  {}

  // ------------------------------------------------------------ the whole run

  /** How a run from `m` ends: all instructions complete, or the first that cannot stops it. */
  ghost predicate EndsAs(instructions: seq<Instruction>, memories: seq<Allocations>, run: (Step, nat)) {
    && IsHistory(instructions, memories) && run.0.m.memory == memories[|memories| - 1]
    && (run.0.Next? <==> |memories| == |instructions| + 1)
    && (run.0.m.produced <==> exists j: nat :: j + 1 < |memories| && Writes(instructions[j]))
    && (run.0.Stop? ==>
          var k := |memories| - 1;
          && run.1 == k < |instructions| && !Completes(instructions, memories, k)
          && run.0.code == StopCode(instructions[k], memories[k]) && run.0.effect == StopEffect(instructions[k], memories[k]))
    && run.0.m.trace == TraceOf(instructions, memories)
  }

  lemma {:induction false} RunIsHistory(instructions: seq<Instruction>, memories: seq<Allocations>, m: Machine)
    returns (all: seq<Allocations>)
    requires Describes(instructions, memories, m) && RootsFirst(instructions) && AllExecutable(instructions)
    ensures memories <= all && EndsAs(instructions, all, RunFrom(instructions, |memories| - 1, m))
    decreases |instructions| + 1 - |memories|
  {
    var k := |memories| - 1;
    if k == |instructions| {
      EndsCompleted(instructions, memories, m);
      all := memories;
    } else {
      var step := OneMore(instructions, memories, m);
      if step.Next? {
        all := RunIsHistory(instructions, memories + [step.m.memory], step.m);
        assert memories <= memories + [step.m.memory];
      } else {
        all := memories;
      }
    }
  }

  /** The next instruction: the history grows, or the run ends here. */
  lemma OneMore(instructions: seq<Instruction>, memories: seq<Allocations>, m: Machine) returns (step: Step)
    requires Describes(instructions, memories, m) && RootsFirst(instructions) && AllExecutable(instructions)
    requires |memories| <= |instructions|
    ensures |step.m.refs| == |instructions| && Backed(step.m.memory)
    ensures RunFrom(instructions, |memories| - 1, m) == Continued(instructions, |memories| - 1, step)
    ensures step.Next? ==> Describes(instructions, memories + [step.m.memory], step.m)
    ensures step.Stop? ==> EndsAs(instructions, memories, (step, |memories| - 1))
  {
    var k := |memories| - 1;
    RunContinues(instructions, k, m);
    step := Interpret(instructions[k], k, m);
    if step.Next? {
      HistoryGrows(instructions, memories, m);
    } else {
      StopsHere(instructions, memories, m);
    }
  }

  lemma EndsCompleted(instructions: seq<Instruction>, memories: seq<Allocations>, m: Machine)
    requires Describes(instructions, memories, m) && |memories| == |instructions| + 1
    ensures EndsAs(instructions, memories, (Next(m), |instructions|))
  {
    assert TraceOf(instructions, memories) == ProgramEffects(instructions[..|instructions|]);
  }

  lemma StopsHere(instructions: seq<Instruction>, memories: seq<Allocations>, m: Machine)
    requires Describes(instructions, memories, m) && RootsFirst(instructions) && AllExecutable(instructions)
    requires |memories| <= |instructions| && Interpret(instructions[|memories| - 1], |memories| - 1, m).Stop?
    ensures var k := |memories| - 1;
            EndsAs(instructions, memories, (Interpret(instructions[k], k, m), k))
  {
    var k := |memories| - 1;
    assert Executable(instructions[k], k, |m.refs|);
    StopsExactly(instructions, memories, m);
    StoppedMachine(instructions[k], k, m);
    EndsStopped(instructions, memories, m, Interpret(instructions[k], k, m));
  }

  lemma EndsStopped(instructions: seq<Instruction>, memories: seq<Allocations>, m: Machine, step: Step)
    requires Describes(instructions, memories, m) && |memories| <= |instructions|
    requires step.Stop? && step.m.memory == m.memory && step.m.produced == m.produced
    requires !Completes(instructions, memories, |memories| - 1)
    requires var i := instructions[|memories| - 1];
             && step.code == StopCode(i, m.memory) && step.effect == StopEffect(i, m.memory)
             && step.m.trace == m.trace + if InBounds(i, m.memory) then [i.AsEffect()] else []
    ensures EndsAs(instructions, memories, (step, |memories| - 1))
  {
    var k := |memories| - 1;
    assert ProgramEffects(instructions[..k + 1]) == ProgramEffects(instructions[..k]) + [instructions[k].AsEffect()];
  }

  lemma StoppedMachine(i: Instruction, index: nat, m: Machine)
    requires Backed(m.memory) && Executable(i, index, |m.refs|) && Interpret(i, index, m).Stop?
    ensures var step := Interpret(i, index, m);
            && step.m.memory == m.memory && step.m.produced == m.produced && step.effect == StopEffect(i, m.memory)
            && step.m.trace == m.trace + if InBounds(i, m.memory) then [i.AsEffect()] else []
  {}

  /** The report of a run that followed the history. */
  ghost predicate ReportsHistory(instructions: seq<Instruction>, memories: seq<Allocations>, r: ExecutionResult) {
    && IsHistory(instructions, memories) && r.missing == [] && r.outputsValid == r.ok
    && r.trace == TraceOf(instructions, memories)
    && var k := |memories| - 1;
       && (r.ok <==> k == |instructions|)
       && (r.ok ==> r.fault.None? && r.poison.Valid?)
       && (!r.ok ==>
             && !Completes(instructions, memories, k)
             && r.fault.Some? && r.fault.value.instruction == k
             && r.fault.value.code == StopCode(instructions[k], memories[k])
             && r.fault.value.effect == StopEffect(instructions[k], memories[k])
             && r.poison == if exists j: nat :: j < k && Writes(instructions[j]) then PartiallyProduced else Poisoned)
  }

  lemma FinishReports(instructions: seq<Instruction>, memories: seq<Allocations>, run: (Step, nat))
    requires EndsAs(instructions, memories, run)
    ensures ReportsHistory(instructions, memories, Finish(run))
  {
    var k := |memories| - 1;
    assert (exists j: nat :: j < k && Writes(instructions[j])) <==> (exists j: nat :: j + 1 < |memories| && Writes(instructions[j]));
  }

  /** Whether an execution was refused for its certificate. */
  predicate Refused(r: ExecutionResult) {
    r.fault.Some? && r.fault.value.code.CertificateMiss?
  }

  lemma NotRefused(m: Module, certificate: Option<seq<Effect>>, sealed: Option<seq<Effect>>, memory: Allocations)
    returns (run: (Step, nat))
    requires Backed(memory) && Verified(m) && !Refused(Execute(m, certificate, sealed, memory).1)
    ensures AllExecutable(m.instructions) && run == RunFrom(m.instructions, 0, Start(memory, |m.instructions|))
    ensures Execute(m, certificate, sealed, memory) == (run.0.m.memory, Finish(run))
  {
    VerifiedExecutable(m);
    run := RunFrom(m.instructions, 0, Start(memory, |m.instructions|));
  }

  /** A run from the beginning, whatever it is called. */
  lemma RunFromStart(instructions: seq<Instruction>, memory: Allocations, run: (Step, nat))
    returns (memories: seq<Allocations>)
    requires Backed(memory) && RootsFirst(instructions) && AllExecutable(instructions)
    requires run == RunFrom(instructions, 0, Start(memory, |instructions|))
    ensures 1 <= |memories| && memories[0] == memory && run.0.m.memory == memories[|memories| - 1]
    ensures ReportsHistory(instructions, memories, Finish(run))
  {
    StartDescribed(instructions, memory);
    memories := RunIsHistory(instructions, [memory], Start(memory, |instructions|));
    FinishReports(instructions, memories, run);
    assert memories[0] == [memory][0];
  }

  lemma RootsOfVerified(m: Module)
    requires Verified(m)
    ensures RootsFirst(m.instructions)
  {
    forall k: nat | k < |m.instructions| && m.instructions[k].IsVia()
      ensures 1 <= m.instructions[k].refOperand <= k && m.instructions[m.instructions[k].refOperand - 1].op.LoadRef?
    {
      assert WellFormedInstruction(m, k);
    }
  }

  lemma StartDescribed(instructions: seq<Instruction>, memory: Allocations)
    requires Backed(memory)
    ensures Describes(instructions, [memory], Start(memory, |instructions|))
  {
    assert instructions[..0] == [];
  }

  /** An execution that is not refused is a history: it starts from the given memory, runs until the first instruction
      that cannot complete, and is ok exactly when there is none.  Then the fault names that instruction and its reason,
      and the output counts as partially produced exactly when an earlier instruction wrote. */
  lemma ExecutionIsHistory(
    m: Module, certificate: Option<seq<Effect>>, sealed: Option<seq<Effect>>, memory: Allocations)
    returns (memories: seq<Allocations>)
    requires Backed(memory) && Verified(m) && !Refused(Execute(m, certificate, sealed, memory).1)
    ensures 1 <= |memories| && memories[0] == memory
    ensures Execute(m, certificate, sealed, memory).0 == memories[|memories| - 1]
    ensures ReportsHistory(m.instructions, memories, Execute(m, certificate, sealed, memory).1)
  {
    var run := NotRefused(m, certificate, sealed, memory);
    RootsOfVerified(m);
    memories := RunFromStart(m.instructions, memory, run);
  }

  /** In an execution that is ok every dereference's reference load found the packed target when it ran. */
  lemma NothingDangles(
    m: Module, certificate: Option<seq<Effect>>, sealed: Option<seq<Effect>>, memory: Allocations, k: nat)
    returns (memories: seq<Allocations>)
    requires Backed(memory) && Execute(m, certificate, sealed, memory).1.ok
    requires k < |m.instructions| && m.instructions[k].IsVia()
    ensures IsHistory(m.instructions, memories) && |memories| == |m.instructions| + 1 && memories[0] == memory
    ensures var i := m.instructions[k];
            && 1 <= i.refOperand <= k
            && HeldTarget(m.instructions[i.refOperand - 1], memories[i.refOperand - 1], PointerRef(i.allocation, i.generation))
  {
    memories := ExecutionIsHistory(m, certificate, sealed, memory);
    assert Completes(m.instructions, memories, k);
  }

  /** A module that does not verify is refused before anything is looked at. */
  lemma UnverifiedIsRefused(m: Module, certificate: Option<seq<Effect>>, sealed: Option<seq<Effect>>, memory: Allocations)
    requires Backed(memory) && !Verified(m)
    ensures var (after, r) := Execute(m, certificate, sealed, memory);
            && after == memory && !r.ok && r.poison.Poisoned? && r.trace == [] && r.missing == []
            && r.fault.Some? && r.fault.value.instruction == 0 && r.fault.value.code.IrInvalid?
  {}

  /** The uncovered effects are listed one by one in the order of the effects. */
  lemma {:induction false} MissingConcat(certificate: seq<Effect>, a: seq<Effect>, b: seq<Effect>)
    ensures MissingEffects(certificate, a + b) == MissingEffects(certificate, a) + MissingEffects(certificate, b)
  {
    if b == [] {
      assert a + b == a;
    } else {
      var n := |b| - 1;
      MissingConcat(certificate, a, b[..n]);
      assert (a + b)[..|a + b| - 1] == a + b[..n] && (a + b)[|a + b| - 1] == b[n];
    }
  }

  lemma MissingOne(certificate: seq<Effect>, e: Effect)
    ensures MissingEffects(certificate, [e]) == if CertificateCovers(certificate, e) then [] else [e]
  {
    assert [e][..0] == [];
  }

  /** The effects of the direct accesses, and those of the dereferences, are listed one by one in program order. */
  lemma {:induction false} EffectsConcat(a: seq<Instruction>, b: seq<Instruction>)
    ensures DirectEffects(a + b) == DirectEffects(a) + DirectEffects(b)
    ensures ViaEffects(a + b) == ViaEffects(a) + ViaEffects(b)
  {
    if b == [] {
      assert a + b == a;
    } else {
      var n := |b| - 1;
      EffectsConcat(a, b[..n]);
      assert (a + b)[..|a + b| - 1] == a + b[..n] && (a + b)[|a + b| - 1] == b[n];
    }
  }

  lemma EffectsOfOne(i: Instruction)
    ensures DirectEffects([i]) == (if i.IsVia() then [] else [i.AsEffect()])
    ensures ViaEffects([i]) == (if i.IsVia() then [i.AsEffect()] else [])
  {
    assert [i][..0] == [];
  }

  /** A refusal names the first uncovered effect and leaves nothing valid. */
  lemma RefusalReport(m: Module, certificate: seq<Effect>, sealed: seq<Effect>, memory: Allocations)
    requires Backed(memory) && Verified(m) && Refused(Execute(m, Some(certificate), Some(sealed), memory).1)
    ensures var (after, r) := Execute(m, Some(certificate), Some(sealed), memory);
            && after == memory && r.trace == [] && r.poison.Poisoned? && !r.ok && !r.outputsValid
            && r.missing == MissingEffects(certificate, sealed) && r.missing != []
            && r.fault.value.instruction == 0 && r.fault.value.effect == r.missing[0]
  {
    if MissingEffects(certificate, sealed) == [] {
      VerifiedExecutable(m);
      ReferenceExecutor.StopCodes(m.instructions, 0, Start(memory, |m.instructions|));
    }
  }
}
