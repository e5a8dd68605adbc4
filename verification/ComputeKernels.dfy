/** The statements of generated compute kernels, what running them does to the bound buffers, and the proof that
    they do what the byte interpreter does (src/compiler/compute_codegen.cpp). */
module ComputeKernels {
  import opened Ir
  import opened Arenas
  import opened Bytes
  import opened Wrappers
  import opened Interpreter

  /** The target languages differ only in how they address a 64-bit atomic. */
  datatype Dialect = Metal | Glsl

  /** `buffer` is a binding number or a table row.  A word is four bytes; the Metal atomic names a byte offset,
      the GLSL one an element of the 8-byte view of the same buffer. */
  datatype Statement =
    | ReadWord(buffer: nat, word: nat)
    | WriteWord(buffer: nat, word: nat, pattern: U32)
    | AddAtByte(buffer: nat, byteOffset: nat, operand: U64)
    | AddAtWord64(buffer: nat, word64: nat, operand: U64)

  type Buffers = seq<seq<Byte>>

  // ------------------------------------------------------------ running a kernel

  /** The bytes one statement touches. */
  function Target(s: Statement): (nat, nat) {
    match s
    case ReadWord(_, word) => (4 * word, 4)
    case WriteWord(_, word, _) => (4 * word, 4)
    case AddAtByte(_, byteOffset, _) => (byteOffset, 8)
    case AddAtWord64(_, word64, _) => (8 * word64, 8)
  }

  /** A statement is undefined outside its buffer.  Machines are little-endian. */
  function RunStatement(s: Statement, buffers: Buffers): Option<Buffers> {
    var (offset, width) := Target(s);
    if s.buffer >= |buffers| || offset + width > |buffers[s.buffer]| then None
    else
      var bytes := buffers[s.buffer];
      match s
      case ReadWord(_, _) => Some(buffers)
      case WriteWord(_, _, pattern) => Some(buffers[s.buffer := Overlay(bytes, offset, EncodeLe(pattern, 4))])
      case AddAtByte(_, _, operand) => Some(buffers[s.buffer := AddTo(bytes, offset, operand)])
      case AddAtWord64(_, _, operand) => Some(buffers[s.buffer := AddTo(bytes, offset, operand)])
  }

  function AddTo(bytes: seq<Byte>, offset: nat, operand: U64): (r: seq<Byte>)
    requires offset + 8 <= |bytes|
    ensures |r| == |bytes|
  {
    Overlay(bytes, offset, EncodeLe((DecodeLe(bytes[offset..offset + 8]) + operand) % TWO64, 8))
  }

  function RunKernel(kernel: seq<Statement>, buffers: Buffers): Option<Buffers> {
    if kernel == [] then Some(buffers)
    else match RunStatement(kernel[0], buffers)
      case None => None
      case Some(next) => RunKernel(kernel[1..], next)
  }

  // ------------------------------------------------------------ emission

  /** The broadcast of a value's low byte to all four bytes of a word. */
  function StoreWordPattern(value: I64): U32 {
    LowByte(value) * 0x0101_0101
  }

  /** The unsigned image of a signed operand. */
  function AsU64(value: I64): U64 {
    value % TWO64
  }

  /** What some package builder accepts: widths and alignments that survive lowering. */
  predicate Lowerable(i: Instruction) {
    match i.op
    case Load | Store | LoadVia | StoreVia => i.size == 4 && i.offset % 4 == 0
    case AtomicAdd => i.size == 8 && i.offset % 8 == 0
    case LoadRef => i.size == 12 && i.offset % 4 == 0
    case PublishOp | UnknownOp(_) => false
  }

  predicate NeedsBuffer(i: Instruction) {
    !i.op.LoadRef?
  }

  predicate BoundIn(rows: seq<U64>, i: Instruction) {
    NeedsBuffer(i) ==> i.allocation in rows
  }

  function Row(rows: seq<U64>, allocation: U64): (k: nat)
    requires allocation in rows
    ensures k < |rows| && rows[k] == allocation
  {
    if rows[0] == allocation then 0 else 1 + Row(rows[1..], allocation)
  }

  /** The statement for one instruction; a reference load leaves none. */
  function Lowered(i: Instruction, rows: seq<U64>, dialect: Dialect): seq<Statement>
    requires BoundIn(rows, i)
  {
    match i.op
    case LoadRef => []
    case Load | LoadVia => [ReadWord(Row(rows, i.allocation), i.offset / 4)]
    case AtomicAdd =>
      if dialect.Metal? then [AddAtByte(Row(rows, i.allocation), i.offset, AsU64(i.value))]
      else [AddAtWord64(Row(rows, i.allocation), i.offset / 8, AsU64(i.value))]
    case Store | StoreVia | PublishOp | UnknownOp(_) =>
      [WriteWord(Row(rows, i.allocation), i.offset / 4, StoreWordPattern(i.value))]
  }

  predicate AllBound(instructions: seq<Instruction>, rows: seq<U64>) {
    forall k | 0 <= k < |instructions| :: BoundIn(rows, instructions[k])
  }

  /** The statements of the first `count` instructions. */
  function EmittedUpTo(instructions: seq<Instruction>, count: nat, rows: seq<U64>, dialect: Dialect): seq<Statement>
    requires count <= |instructions| && AllBound(instructions, rows)
  {
    if count == 0 then []
    else EmittedUpTo(instructions, count - 1, rows, dialect) + Lowered(instructions[count - 1], rows, dialect)
  }

  function Emitted(instructions: seq<Instruction>, rows: seq<U64>, dialect: Dialect): seq<Statement>
    requires AllBound(instructions, rows)
  {
    EmittedUpTo(instructions, |instructions|, rows, dialect)
  }

  // ------------------------------------------------------------ which statement belongs to which instruction

  /** How many of the first `count` instructions leave a statement. */
  function Position(instructions: seq<Instruction>, count: nat): (p: nat)
    requires count <= |instructions|
    ensures p <= count
  {
    if count == 0 then 0 else Position(instructions, count - 1) + if NeedsBuffer(instructions[count - 1]) then 1 else 0
  }

  /** The statement acts on the instruction's own range of its own allocation's buffer: it reads the word, writes the
      low byte of the value to each of its bytes, or adds the value modulo 2^64. */
  ghost predicate StatementFor(i: Instruction, s: Statement, rows: seq<U64>, dialect: Dialect) {
    && s.buffer < |rows| && rows[s.buffer] == i.allocation
    && match s
       case ReadWord(_, word) => (i.op.Load? || i.op.LoadVia?) && i.offset == 4 * word && i.size == 4
       case WriteWord(_, word, pattern) =>
         && (i.op.Store? || i.op.StoreVia?) && i.offset == 4 * word && i.size == 4
         && forall k | 0 <= k < 4 :: EncodeLe(pattern, 4)[k] == i.value % 256
       case AddAtByte(_, byteOffset, operand) =>
         i.op.AtomicAdd? && dialect.Metal? && i.offset == byteOffset && i.size == 8 && (operand - i.value) % TWO64 == 0
       case AddAtWord64(_, word64, operand) =>
         i.op.AtomicAdd? && dialect.Glsl? && i.offset == 8 * word64 && i.size == 8 && (operand - i.value) % TWO64 == 0
  }

  /** The statements are those of the instructions that leave one, in program order. */
  ghost predicate KernelFollows(
    instructions: seq<Instruction>, count: nat, kernel: seq<Statement>, rows: seq<U64>, dialect: Dialect)
    requires count <= |instructions|
  {
    && |kernel| == Position(instructions, count)
    && forall k: nat | k < count && NeedsBuffer(instructions[k]) ::
         FollowsAt(kernel, Position(instructions, k), instructions[k], rows, dialect)
  }

  ghost predicate FollowsAt(kernel: seq<Statement>, at: nat, i: Instruction, rows: seq<U64>, dialect: Dialect) {
    at < |kernel| && StatementFor(i, kernel[at], rows, dialect)
  }

  lemma LoweredFollows(i: Instruction, rows: seq<U64>, dialect: Dialect)
    requires Lowerable(i) && BoundIn(rows, i) && NeedsBuffer(i)
    ensures |Lowered(i, rows, dialect)| == 1 && StatementFor(i, Lowered(i, rows, dialect)[0], rows, dialect)
  {
    FourBytes(LowByte(i.value));
    var q := i.value / TWO64;
    assert AsU64(i.value) - i.value == TWO64 * -q;
  }

  lemma {:induction false} EmittedFollows(instructions: seq<Instruction>, count: nat, rows: seq<U64>, dialect: Dialect)
    requires count <= |instructions| && AllBound(instructions, rows) && AllLowerable(instructions)
    ensures KernelFollows(instructions, count, EmittedUpTo(instructions, count, rows, dialect), rows, dialect)
  {
    if count > 0 {
      var last := count - 1;
      var front := EmittedUpTo(instructions, last, rows, dialect);
      EmittedFollows(instructions, last, rows, dialect);
      if NeedsBuffer(instructions[last]) {
        LoweredFollows(instructions[last], rows, dialect);
      }
      var kernel := EmittedUpTo(instructions, count, rows, dialect);
      forall k: nat | k < count && NeedsBuffer(instructions[k])
        ensures FollowsAt(kernel, Position(instructions, k), instructions[k], rows, dialect)
      {
        if k < last {
          assert FollowsAt(front, Position(instructions, k), instructions[k], rows, dialect);
        }
      }
    }
  }

  // ------------------------------------------------------------ agreement with the interpreter

  /** The contents of the bound buffers, row by row. */
  function Gather(memory: Allocations, rows: seq<U64>): (r: Buffers)
    ensures |r| == |rows|
  {
    seq(|rows|, k requires 0 <= k < |rows| => if rows[k] in memory then memory[rows[k]].bytes else [])
  }

  lemma FourBytes(b: Byte)
    ensures EncodeLe(b * 0x0101_0101, 4) == [b, b, b, b]
  {
    var v := b * 0x0101_0101;
    assert v == b + 256 * (b * 0x01_0101) && b * 0x01_0101 == b + 256 * (b * 0x0101) && b * 0x0101 == b + 256 * b;
    LowDigit(b, b * 0x01_0101);
    LowDigit(b, b * 0x0101);
    LowDigit(b, b);
    assert EncodeLe(b, 1) == [b] + EncodeLe(b / 256, 0);
    assert EncodeLe(b * 0x0101, 2) == [b] + EncodeLe(b, 1);
    assert EncodeLe(b * 0x01_0101, 3) == [b] + EncodeLe(b * 0x0101, 2);
    assert EncodeLe(v, 4) == [b] + EncodeLe(b * 0x01_0101, 3);
  }

  /** The word pattern spells the interpreter's byte-by-byte fill. */
  lemma PatternIsFill(value: I64)
    ensures EncodeLe(StoreWordPattern(value), 4) == Fill(4, LowByte(value))
  {
    FourBytes(LowByte(value));
  }

  /** Adding the unsigned image wraps as adding the signed value does. */
  lemma OperandWraps(a: nat, value: I64)
    ensures (a + AsU64(value)) % TWO64 == AddWrapping(a, value)
  {
    var q := value / TWO64;
    assert value == AsU64(value) + TWO64 * q;
    assert -1 <= q <= 0;
  }

  lemma PatchGathers(memory: Allocations, rows: seq<U64>, id: U64, offset: nat, data: seq<Byte>)
    requires Distinct(rows) && id in rows && id in memory && offset + |data| <= |memory[id].bytes|
    ensures Gather(Patch(memory, id, offset, data), rows)
         == Gather(memory, rows)[Row(rows, id) := Overlay(memory[id].bytes, offset, data)]
  {}

  ghost predicate Distinct(rows: seq<U64>) {
    forall i, j | 0 <= i < j < |rows| :: rows[i] != rows[j]
  }

  lemma WriteYields(s: Statement, memory: Allocations, rows: seq<U64>, id: U64, offset: nat, data: seq<Byte>)
    requires Distinct(rows) && id in rows && id in memory && offset + |data| <= |memory[id].bytes|
    requires RunStatement(s, Gather(memory, rows))
          == Some(Gather(memory, rows)[Row(rows, id) := Overlay(memory[id].bytes, offset, data)])
    ensures KernelYields([s], rows, memory, Patch(memory, id, offset, data))
  {
    RunSingleStatement(s, Gather(memory, rows));
    PatchGathers(memory, rows, id, offset, data);
  }

  lemma StoreYields(memory: Allocations, rows: seq<U64>, id: U64, offset: nat, value: I64)
    requires Distinct(rows) && id in rows && id in memory && offset % 4 == 0 && offset + 4 <= |memory[id].bytes|
    ensures KernelYields([WriteWord(Row(rows, id), offset / 4, StoreWordPattern(value))], rows, memory,
                         Patch(memory, id, offset, Fill(4, LowByte(value))))
  {
    PatternIsFill(value);
    WriteYields(WriteWord(Row(rows, id), offset / 4, StoreWordPattern(value)), memory, rows, id, offset,
                Fill(4, LowByte(value)));
  }

  lemma AddYields(s: Statement, memory: Allocations, rows: seq<U64>, id: U64, offset: nat, value: I64)
    requires Distinct(rows) && id in rows && id in memory && offset + 8 <= |memory[id].bytes|
    requires RunStatement(s, Gather(memory, rows))
          == Some(Gather(memory, rows)[Row(rows, id) := AddTo(memory[id].bytes, offset, AsU64(value))])
    ensures var sum := AddWrapping(DecodeLe(Slice(memory, id, offset, 8)), value);
            KernelYields([s], rows, memory, Patch(memory, id, offset, EncodeLe(sum, 8)))
  {
    var old64 := DecodeLe(Slice(memory, id, offset, 8));
    OperandWraps(old64, value);
    WriteYields(s, memory, rows, id, offset, EncodeLe(AddWrapping(old64, value), 8));
  }

  /** The byte-addressed and the word-addressed atomic both do what the interpreter's does. */
  lemma AtomicYields(memory: Allocations, rows: seq<U64>, id: U64, offset: nat, value: I64)
    requires Distinct(rows) && id in rows && id in memory && offset % 8 == 0 && offset + 8 <= |memory[id].bytes|
    ensures var sum := AddWrapping(DecodeLe(Slice(memory, id, offset, 8)), value);
            var after := Patch(memory, id, offset, EncodeLe(sum, 8));
            && KernelYields([AddAtByte(Row(rows, id), offset, AsU64(value))], rows, memory, after)
            && KernelYields([AddAtWord64(Row(rows, id), offset / 8, AsU64(value))], rows, memory, after)
  {
    assert Gather(memory, rows)[Row(rows, id)] == memory[id].bytes;
    AddYields(AddAtByte(Row(rows, id), offset, AsU64(value)), memory, rows, id, offset, value);
    AddYields(AddAtWord64(Row(rows, id), offset / 8, AsU64(value)), memory, rows, id, offset, value);
  }

  lemma ReadYields(memory: Allocations, rows: seq<U64>, id: U64, offset: nat)
    requires id in rows && id in memory && offset % 4 == 0 && offset + 4 <= |memory[id].bytes|
    ensures KernelYields([ReadWord(Row(rows, id), offset / 4)], rows, memory, memory)
  {
    RunSingleStatement(ReadWord(Row(rows, id), offset / 4), Gather(memory, rows));
  }

  /** One instruction that does not fault and its statement change the bound bytes alike, and no others. */
  lemma StatementSimulates(i: Instruction, index: nat, m: Machine, rows: seq<U64>, dialect: Dialect)
    requires Backed(m.memory) && Executable(i, index, |m.refs|)
    requires Lowerable(i) && BoundIn(rows, i) && Distinct(rows)
    requires Interpret(i, index, m).Next?
    ensures KernelYields(Lowered(i, rows, dialect), rows, m.memory, Interpret(i, index, m).m.memory)
  {
    assert Accessible(i, m.memory);
    match i.op
    case LoadRef =>
    case Load | LoadVia => ReadYields(m.memory, rows, i.allocation, i.offset);
    case Store | StoreVia => StoreYields(m.memory, rows, i.allocation, i.offset, i.value);
    case AtomicAdd => AtomicYields(m.memory, rows, i.allocation, i.offset, i.value);
  }

  lemma RunSingleStatement(s: Statement, buffers: Buffers)
    ensures RunKernel([s], buffers) == RunStatement(s, buffers)
  {
    match RunStatement(s, buffers)
    case None =>
    case Some(next) => assert RunKernel([s][1..], next) == Some(next);
  }

  lemma {:induction false} RunKernelConcat(a: seq<Statement>, b: seq<Statement>, buffers: Buffers)
    requires RunKernel(a, buffers).Some?
    ensures RunKernel(a + b, buffers) == RunKernel(b, RunKernel(a, buffers).value)
  {
    if a == [] {
      assert a + b == b;
    } else {
      assert (a + b)[1..] == a[1..] + b;
      RunKernelConcat(a[1..], b, RunStatement(a[0], buffers).value);
    }
  }

  ghost predicate AllLowerable(instructions: seq<Instruction>) {
    forall k | 0 <= k < |instructions| :: Lowerable(instructions[k])
  }

  /** The kernel takes the bound buffers of one state to those of the other, and the rest is the same in both. */
  ghost predicate KernelYields(kernel: seq<Statement>, rows: seq<U64>, before: Allocations, after: Allocations) {
    && RunKernel(kernel, Gather(before, rows)) == Some(Gather(after, rows))
    && before.Keys == after.Keys
    && forall id | id in before && id !in rows :: after[id] == before[id]
  }

  lemma KernelsCompose(
    a: seq<Statement>, b: seq<Statement>, rows: seq<U64>, x: Allocations, y: Allocations, z: Allocations)
    requires KernelYields(a, rows, x, y) && KernelYields(b, rows, y, z)
    ensures KernelYields(a + b, rows, x, z)
  {
    RunKernelConcat(a, b, Gather(x, rows));
  }

  /** If the statements so far yield the machine's memory, all of them yield the final one. */
  lemma {:induction false} RunSimulates(
    instructions: seq<Instruction>, index: nat, m: Machine, rows: seq<U64>, dialect: Dialect, start: Allocations)
    requires index <= |instructions| == |m.refs|
    requires Backed(m.memory) && AllExecutable(instructions) && Distinct(rows)
    requires AllLowerable(instructions) && AllBound(instructions, rows)
    requires KernelYields(EmittedUpTo(instructions, index, rows, dialect), rows, start, m.memory)
    requires RunFrom(instructions, index, m).0.Next?
    ensures KernelYields(Emitted(instructions, rows, dialect), rows, start, RunFrom(instructions, index, m).0.m.memory)
    decreases |instructions| - index
  {
    if index < |instructions| {
      var i := instructions[index];
      assert Executable(i, index, |m.refs|);
      InterpretStaysBacked(i, index, m);
      StatementSimulates(i, index, m, rows, dialect);
      var next := Interpret(i, index, m).m;
      KernelsCompose(EmittedUpTo(instructions, index, rows, dialect), Lowered(i, rows, dialect), rows,
                     start, m.memory, next.memory);
      RunSimulates(instructions, index + 1, next, rows, dialect, start);
    }
  }

  /** The compiler preserves meaning: where the byte interpreter succeeds, one run of the emitted kernel is defined
      and leaves the interpreter's bytes in every bound buffer; the interpreter itself touches no unbound one. */
  lemma KernelMatchesInterpreter(
    m: Module, rows: seq<U64>, dialect: Dialect, certificate: Option<seq<Effect>>, sealed: Option<seq<Effect>>,
    memory: Allocations)
    requires Backed(memory) && Distinct(rows)
    requires AllLowerable(m.instructions) && AllBound(m.instructions, rows)
    requires Execute(m, certificate, sealed, memory).1.ok
    ensures KernelYields(Emitted(m.instructions, rows, dialect), rows, memory, Execute(m, certificate, sealed, memory).0)
  {
    VerifiedExecutable(m);
    var run := RunFrom(m.instructions, 0, Start(memory, |m.instructions|));
    assert run.0.Next? && Execute(m, certificate, sealed, memory).0 == run.0.m.memory;
    RunSimulates(m.instructions, 0, Start(memory, |m.instructions|), rows, dialect, memory);
  }
}
