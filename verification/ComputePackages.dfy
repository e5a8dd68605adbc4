/** The three package builders and their emitters
    (src/compiler/compute_package.cpp, src/compiler/compute_codegen.cpp). */
module ComputePackages {
  import opened Ir
  import opened Arenas
  import opened Wrappers
  import opened Interpreter
  import opened ComputeKernels

  datatype ComputeBinding = ComputeBinding(allocation: U64, binding: nat)

  datatype Kernels = Kernels(metal: seq<Statement>, glsl: seq<Statement>)

  datatype ComputePackage = ComputePackage(rootSchema: string, bindings: seq<ComputeBinding>, kernels: Kernels, wide: bool)

  datatype IndexedComputePackage = IndexedComputePackage(rootSchema: string, referenced: seq<U64>, kernels: Kernels)

  // ------------------------------------------------------------ accepted subsets

  predicate SupportedLinear(i: Instruction) {
    match i.op
    case AtomicAdd => i.size == 8 && i.offset % 8 == 0
    case Load | Store => i.size == 4 && i.offset % 4 == 0
    case _ => false
  }

  predicate SupportedPointer(i: Instruction) {
    match i.op
    case LoadRef => i.size == 12 && i.offset % 4 == 0
    case LoadVia | StoreVia => i.size == 4 && i.offset % 4 == 0
    case _ => false
  }

  predicate SupportedIndexed(i: Instruction) {
    (i.op.Load? || i.op.Store?) && i.size == 4 && i.offset % 4 == 0
  }

  // ------------------------------------------------------------ what a package guarantees

  /** The rows are exactly the allocations some instruction needs a buffer for, each once. */
  ghost predicate RowsExact(instructions: seq<Instruction>, rows: seq<U64>) {
    && Distinct(rows)
    && forall id :: id in rows <==> Referenced(instructions, id)
  }

  ghost predicate Referenced(instructions: seq<Instruction>, id: U64) {
    exists k :: 0 <= k < |instructions| && NeedsBuffer(instructions[k]) && instructions[k].allocation == id
  }

  /** Wherever the byte interpreter succeeds, either kernel yields its bytes. */
  ghost predicate Faithful(m: Module, rows: seq<U64>, kernels: Kernels) {
    forall certificate, sealed, memory | Backed(memory) && Execute(m, certificate, sealed, memory).1.ok ::
      && KernelYields(kernels.metal, rows, memory, Execute(m, certificate, sealed, memory).0)
      && KernelYields(kernels.glsl, rows, memory, Execute(m, certificate, sealed, memory).0)
  }

  /** Either kernel has one statement per instruction that is not a reference load, on the instruction's own range. */
  ghost predicate Follows(m: Module, rows: seq<U64>, kernels: Kernels) {
    && KernelFollows(m.instructions, |m.instructions|, kernels.metal, rows, Metal)
    && KernelFollows(m.instructions, |m.instructions|, kernels.glsl, rows, Glsl)
  }

  function Rows(bindings: seq<ComputeBinding>): (r: seq<U64>)
    ensures |r| == |bindings| && forall k | 0 <= k < |r| :: r[k] == bindings[k].allocation
  {
    seq(|bindings|, k requires 0 <= k < |bindings| => bindings[k].allocation)
  }

  /** Binding numbers are positions, and allocations ascend. */
  ghost predicate Dense(bindings: seq<ComputeBinding>) {
    && (forall k | 0 <= k < |bindings| :: bindings[k].binding == k)
    && (forall i, j | 0 <= i < j < |bindings| :: bindings[i].allocation < bindings[j].allocation)
  }

  lemma EmittedIsFaithful(m: Module, rows: seq<U64>)
    requires RowsExact(m.instructions, rows) && AllLowerable(m.instructions)
    ensures AllBound(m.instructions, rows)
    ensures var kernels := Kernels(Emitted(m.instructions, rows, Metal), Emitted(m.instructions, rows, Glsl));
            Faithful(m, rows, kernels) && Follows(m, rows, kernels)
  {
    forall k | 0 <= k < |m.instructions| ensures BoundIn(rows, m.instructions[k]) {
      assert NeedsBuffer(m.instructions[k]) ==> Referenced(m.instructions, m.instructions[k].allocation);
    }
    EmittedFollows(m.instructions, |m.instructions|, rows, Metal);
    EmittedFollows(m.instructions, |m.instructions|, rows, Glsl);
    forall certificate, sealed, memory | Backed(memory) && Execute(m, certificate, sealed, memory).1.ok
      ensures KernelYields(Emitted(m.instructions, rows, Metal), rows, memory, Execute(m, certificate, sealed, memory).0)
      ensures KernelYields(Emitted(m.instructions, rows, Glsl), rows, memory, Execute(m, certificate, sealed, memory).0)
    {
      KernelMatchesInterpreter(m, rows, Metal, certificate, sealed, memory);
      KernelMatchesInterpreter(m, rows, Glsl, certificate, sealed, memory);
    }
  }

  lemma RowIsUnique(rows: seq<U64>, k: nat)
    requires Distinct(rows) && k < |rows|
    ensures Row(rows, rows[k]) == k
  {}

  // ------------------------------------------------------------ bindings

  /** The ids in ascending order, as an ordered set enumerates them, numbered from zero. */
  method BindAscending(ids: set<U64>) returns (bindings: seq<ComputeBinding>)
    ensures Dense(bindings)
    ensures forall id :: id in Rows(bindings) <==> id in ids
  {
    bindings := [];
    var rest := ids;
    while rest != {}
      invariant Dense(bindings) && rest <= ids
      invariant forall id :: id in Rows(bindings) <==> id in ids && id !in rest
      invariant forall k, id | 0 <= k < |bindings| && id in rest :: bindings[k].allocation < id
      decreases |rest|
    {
      var least := Least(rest);
      ghost var before := bindings;
      bindings := bindings + [ComputeBinding(least, |bindings|)];
      assert Rows(bindings) == Rows(before) + [least];
      rest := rest - {least};
    }
  }

  method Least(ids: set<U64>) returns (least: U64)
    requires ids != {}
    ensures least in ids && forall id | id in ids :: least <= id
  {
    least :| least in ids;
    var rest := ids - {least};
    while rest != {}
      invariant rest <= ids && least in ids
      invariant forall id | id in ids && id !in rest :: least <= id
      decreases |rest|
    {
      var id :| id in rest;
      if id < least {
        least := id;
      }
      rest := rest - {id};
    }
  }

  method FindBinding(bindings: seq<ComputeBinding>, allocation: U64) returns (binding: nat)
    requires Dense(bindings) && allocation in Rows(bindings)
    ensures binding == Row(Rows(bindings), allocation)
  {
    var rows := Rows(bindings);
    var k := 0;
    while bindings[k].allocation != allocation
      invariant 0 <= k < |bindings| && forall j | 0 <= j < k :: rows[j] != allocation
      decreases |bindings| - k
    {
      k := k + 1;
    }
    RowIsUnique(rows, k);
    binding := bindings[k].binding;
  }

  // ------------------------------------------------------------ emitters

  method EmitLinear(m: Module, bindings: seq<ComputeBinding>) returns (kernels: Kernels)
    requires Dense(bindings) && AllBound(m.instructions, Rows(bindings))
    requires forall k | 0 <= k < |m.instructions| :: SupportedLinear(m.instructions[k])
    ensures kernels == Kernels(Emitted(m.instructions, Rows(bindings), Metal), Emitted(m.instructions, Rows(bindings), Glsl))
  {
    var metal, glsl := [], [];
    for index := 0 to |m.instructions|
      invariant metal == EmittedUpTo(m.instructions, index, Rows(bindings), Metal)
      invariant glsl == EmittedUpTo(m.instructions, index, Rows(bindings), Glsl)
    {
      var i := m.instructions[index];
      assert BoundIn(Rows(bindings), i) && SupportedLinear(i);
      var forMetal, forGlsl := EmitLinearStatement(i, bindings);
      metal, glsl := metal + [forMetal], glsl + [forGlsl];
    }
    kernels := Kernels(metal, glsl);
  }

  method EmitLinearStatement(i: Instruction, bindings: seq<ComputeBinding>) returns (metal: Statement, glsl: Statement)
    requires Dense(bindings) && i.allocation in Rows(bindings) && SupportedLinear(i)
    ensures [metal] == Lowered(i, Rows(bindings), Metal) && [glsl] == Lowered(i, Rows(bindings), Glsl)
  {
    var buffer := FindBinding(bindings, i.allocation);
    if i.op.Load? {
      metal := ReadWord(buffer, i.offset / 4);
      glsl := metal;
    } else if i.op.Store? {
      metal := WriteWord(buffer, i.offset / 4, StoreWordPattern(i.value));
      glsl := metal;
    } else {
      metal := AddAtByte(buffer, i.offset, AsU64(i.value));
      glsl := AddAtWord64(buffer, i.offset / 8, AsU64(i.value));
    }
  }

  /** Reference loads are elided: every dereference names its target statically. */
  method EmitPointerGraph(m: Module, bindings: seq<ComputeBinding>) returns (kernels: Kernels)
    requires Dense(bindings) && AllBound(m.instructions, Rows(bindings))
    requires forall k | 0 <= k < |m.instructions| :: SupportedPointer(m.instructions[k])
    ensures kernels == Kernels(Emitted(m.instructions, Rows(bindings), Metal), Emitted(m.instructions, Rows(bindings), Glsl))
  {
    var body := [];
    for index := 0 to |m.instructions|
      invariant body == EmittedUpTo(m.instructions, index, Rows(bindings), Metal)
      invariant body == EmittedUpTo(m.instructions, index, Rows(bindings), Glsl)
    {
      var i := m.instructions[index];
      assert BoundIn(Rows(bindings), i) && SupportedPointer(i);
      if i.op.LoadRef? {
        assert body + [] == body;
        continue;
      }
      var buffer := FindBinding(bindings, i.allocation);
      if i.op.LoadVia? {
        body := body + [ReadWord(buffer, i.offset / 4)];
      } else {
        body := body + [WriteWord(buffer, i.offset / 4, StoreWordPattern(i.value))];
      }
    }
    kernels := Kernels(body, body);
  }

  method EmitIndexed(m: Module, rows: seq<U64>, tableIndex: seq<nat>) returns (kernels: Kernels)
    requires AllBound(m.instructions, rows) && |tableIndex| == |m.instructions|
    requires forall k | 0 <= k < |m.instructions| ::
               SupportedIndexed(m.instructions[k]) && m.instructions[k].allocation in rows
               && tableIndex[k] == Row(rows, m.instructions[k].allocation)
    ensures kernels == Kernels(Emitted(m.instructions, rows, Metal), Emitted(m.instructions, rows, Glsl))
  {
    var body := [];
    for index := 0 to |m.instructions|
      invariant body == EmittedUpTo(m.instructions, index, rows, Metal)
      invariant body == EmittedUpTo(m.instructions, index, rows, Glsl)
    {
      var i := m.instructions[index];
      assert SupportedIndexed(i);
      if i.op.Load? {
        body := body + [ReadWord(tableIndex[index], i.offset / 4)];
      } else {
        body := body + [WriteWord(tableIndex[index], i.offset / 4, StoreWordPattern(i.value))];
      }
    }
    kernels := Kernels(body, body);
  }

  // ------------------------------------------------------------ builders

  ghost predicate IdsExact(instructions: seq<Instruction>, count: nat, ids: set<U64>) {
    forall id :: id in ids <==> exists k :: 0 <= k < count && k < |instructions| && NeedsBuffer(instructions[k]) && instructions[k].allocation == id
  }

  lemma IdsNext(instructions: seq<Instruction>, k: nat, ids: set<U64>)
    requires k < |instructions| && IdsExact(instructions, k, ids)
    ensures IdsExact(instructions, k + 1, if NeedsBuffer(instructions[k]) then ids + {instructions[k].allocation} else ids)
  {}

  method CollectLinear(instructions: seq<Instruction>) returns (ok: bool, ids: set<U64>, wide: bool)
    ensures ok <==> forall k | 0 <= k < |instructions| :: SupportedLinear(instructions[k])
    ensures ok ==> IdsExact(instructions, |instructions|, ids)
    ensures ok ==> (wide <==> exists k :: 0 <= k < |instructions| && instructions[k].op.AtomicAdd?)
  {
    ids, wide := {}, false;
    for k := 0 to |instructions|
      invariant forall j | 0 <= j < k :: SupportedLinear(instructions[j])
      invariant IdsExact(instructions, k, ids)
      invariant wide <==> exists j :: 0 <= j < k && instructions[j].op.AtomicAdd?
    {
      var i := instructions[k];
      if !SupportedLinear(i) {
        return false, ids, wide;
      }
      IdsNext(instructions, k, ids);
      ids := ids + {i.allocation};
      wide := wide || i.op.AtomicAdd?;
    }
    ok := true;
  }

  method CollectPointer(instructions: seq<Instruction>) returns (ok: bool, ids: set<U64>)
    ensures ok <==> forall k | 0 <= k < |instructions| :: SupportedPointer(instructions[k])
    ensures ok ==> IdsExact(instructions, |instructions|, ids)
  {
    ids := {};
    for k := 0 to |instructions|
      invariant forall j | 0 <= j < k :: SupportedPointer(instructions[j])
      invariant IdsExact(instructions, k, ids)
    {
      var i := instructions[k];
      if !SupportedPointer(i) {
        return false, ids;
      }
      IdsNext(instructions, k, ids);
      if !i.op.LoadRef? {
        ids := ids + {i.allocation};
      }
    }
    ok := true;
  }

  lemma BoundRowsExact(instructions: seq<Instruction>, ids: set<U64>, bindings: seq<ComputeBinding>)
    requires Dense(bindings) && IdsExact(instructions, |instructions|, ids)
    requires forall id :: id in Rows(bindings) <==> id in ids
    ensures RowsExact(instructions, Rows(bindings))
  {}

  /** Accepts exactly the verified modules of word loads, word stores and 64-bit atomics. */
  method BuildLinearComputePackage(m: Module) returns (r: Option<ComputePackage>)
    ensures r.Some? <==> Verified(m) && forall i | i in m.instructions ::
              || ((i.op.Load? || i.op.Store?) && i.size == 4 && i.offset % 4 == 0)
              || (i.op.AtomicAdd? && i.size == 8 && i.offset % 8 == 0)
    ensures r.Some? ==>
              && r.value.rootSchema == m.rootSchema
              && Dense(r.value.bindings) && RowsExact(m.instructions, Rows(r.value.bindings))
              && Faithful(m, Rows(r.value.bindings), r.value.kernels) && Follows(m, Rows(r.value.bindings), r.value.kernels)
              && (r.value.wide <==> exists k :: 0 <= k < |m.instructions| && m.instructions[k].op.AtomicAdd?)
  {
    var verified, _ := Verify(m);
    if !verified {
      return None;
    }
    var ok, ids, wide := CollectLinear(m.instructions);
    if !ok {
      return None;
    }
    var bindings := BindAscending(ids);
    BoundRowsExact(m.instructions, ids, bindings);
    EmittedIsFaithful(m, Rows(bindings));
    var kernels := EmitLinear(m, bindings);
    r := Some(ComputePackage(m.rootSchema, bindings, kernels, wide));
  }

  /** Accepts exactly the verified modules of reference loads and word dereferences; buffers of reference loads
      alone are not bound. */
  method BuildPointerGraphComputePackage(m: Module) returns (r: Option<ComputePackage>)
    ensures r.Some? <==> Verified(m) && forall i | i in m.instructions ::
              || ((i.op.LoadVia? || i.op.StoreVia?) && i.size == 4 && i.offset % 4 == 0)
              || (i.op.LoadRef? && i.size == 12 && i.offset % 4 == 0)
    ensures r.Some? ==>
              && r.value.rootSchema == m.rootSchema
              && Dense(r.value.bindings) && RowsExact(m.instructions, Rows(r.value.bindings))
              && Faithful(m, Rows(r.value.bindings), r.value.kernels) && Follows(m, Rows(r.value.bindings), r.value.kernels)
  {
    var verified, _ := Verify(m);
    if !verified {
      return None;
    }
    var ok, ids := CollectPointer(m.instructions);
    if !ok {
      return None;
    }
    var bindings := BindAscending(ids);
    BoundRowsExact(m.instructions, ids, bindings);
    EmittedIsFaithful(m, Rows(bindings));
    var kernels := EmitPointerGraph(m, bindings);
    r := Some(ComputePackage(m.rootSchema, bindings, kernels, false));
  }

  ghost predicate UsedBefore(instructions: seq<Instruction>, count: nat, id: U64) {
    exists j :: 0 <= j < count && j < |instructions| && instructions[j].allocation == id
  }

  /** Rows are numbered in order of first use: a row's predecessors were all used earlier. */
  ghost predicate FirstSeen(instructions: seq<Instruction>, rows: seq<U64>, tableIndex: seq<nat>) {
    |tableIndex| <= |instructions| && forall k: nat | k < |tableIndex| :: SeenAt(instructions, rows, tableIndex[k], k)
  }

  /** The instruction uses this row, and every earlier row was used before it. */
  ghost predicate SeenAt(instructions: seq<Instruction>, rows: seq<U64>, index: nat, k: nat) {
    && k < |instructions| && index < |rows| && rows[index] == instructions[k].allocation
    && forall r | 0 <= r < index :: UsedBefore(instructions, k, rows[r])
  }

  method FirstSeenRows(instructions: seq<Instruction>) returns (ok: bool, rows: seq<U64>, tableIndex: seq<nat>)
    ensures ok <==> forall k | 0 <= k < |instructions| :: SupportedIndexed(instructions[k])
    ensures ok ==> RowsExact(instructions, rows) && FirstSeen(instructions, rows, tableIndex)
    ensures ok ==> |tableIndex| == |instructions|
  {
    rows, tableIndex := [], [];
    for k := 0 to |instructions|
      invariant forall j | 0 <= j < k :: SupportedIndexed(instructions[j])
      invariant |tableIndex| == k
      invariant RowsUpTo(instructions, k, rows) && FirstSeen(instructions, rows, tableIndex)
    {
      var i := instructions[k];
      if !SupportedIndexed(i) {
        return false, rows, tableIndex;
      }
      FirstSeenStep(instructions, k, rows, tableIndex);
      rows, tableIndex := NextRows(rows, i.allocation), tableIndex + [NextIndex(rows, i.allocation)];
    }
    RowsComplete(instructions, rows);
    ok := true;
  }

  /** A new allocation takes the next row. */
  function NextRows(rows: seq<U64>, id: U64): seq<U64> {
    if id in rows then rows else rows + [id]
  }

  function NextIndex(rows: seq<U64>, id: U64): nat {
    if id in rows then Row(rows, id) else |rows|
  }

  lemma FirstSeenStep(instructions: seq<Instruction>, k: nat, rows: seq<U64>, tableIndex: seq<nat>)
    requires k < |instructions| && |tableIndex| == k
    requires RowsUpTo(instructions, k, rows) && FirstSeen(instructions, rows, tableIndex)
    ensures var id := instructions[k].allocation;
            && RowsUpTo(instructions, k + 1, NextRows(rows, id))
            && FirstSeen(instructions, NextRows(rows, id), tableIndex + [NextIndex(rows, id)])
  {
    var id := instructions[k].allocation;
    RowsNext(instructions, k, rows);
    RowsUsed(instructions, k, rows);
    FirstSeenNext(instructions, k, rows, tableIndex, NextRows(rows, id), NextIndex(rows, id));
  }

  ghost predicate RowsUpTo(instructions: seq<Instruction>, count: nat, rows: seq<U64>) {
    Distinct(rows) && forall id :: id in rows <==> UsedBefore(instructions, count, id)
  }

  lemma RowsNext(instructions: seq<Instruction>, k: nat, rows: seq<U64>)
    requires k < |instructions| && RowsUpTo(instructions, k, rows)
    ensures var id := instructions[k].allocation;
            RowsUpTo(instructions, k + 1, if id in rows then rows else rows + [id])
  {
    var id := instructions[k].allocation;
    var longer := if id in rows then rows else rows + [id];
    forall x ensures x in longer <==> UsedBefore(instructions, k + 1, x) {
      assert x in longer <==> x in rows || x == id;
      if UsedBefore(instructions, k, x) {
        var j :| 0 <= j < k && j < |instructions| && instructions[j].allocation == x;
        assert j < k + 1;
      }
    }
  }

  lemma RowsComplete(instructions: seq<Instruction>, rows: seq<U64>)
    requires RowsUpTo(instructions, |instructions|, rows)
    requires forall k | 0 <= k < |instructions| :: SupportedIndexed(instructions[k])
    ensures RowsExact(instructions, rows)
  {
    forall id ensures UsedBefore(instructions, |instructions|, id) <==> Referenced(instructions, id) {}
  }

  lemma FirstSeenNext(
    instructions: seq<Instruction>, k: nat, rows: seq<U64>, tableIndex: seq<nat>, longer: seq<U64>, index: nat)
    requires k < |instructions| && |tableIndex| == k && FirstSeen(instructions, rows, tableIndex)
    requires forall r | 0 <= r < |rows| :: UsedBefore(instructions, k, rows[r])
    requires rows <= longer && index <= |rows| && index < |longer| && longer[index] == instructions[k].allocation
    ensures FirstSeen(instructions, longer, tableIndex + [index])
  {
    var indices := tableIndex + [index];
    forall m: nat | m < |indices| ensures SeenAt(instructions, longer, indices[m], m) {
      if m < k {
        assert indices[m] == tableIndex[m] && SeenAt(instructions, rows, tableIndex[m], m);
      }
    }
  }

  lemma RowsUsed(instructions: seq<Instruction>, k: nat, rows: seq<U64>)
    requires RowsUpTo(instructions, k, rows)
    ensures forall r | 0 <= r < |rows| :: UsedBefore(instructions, k, rows[r])
  {
    forall r | 0 <= r < |rows| ensures UsedBefore(instructions, k, rows[r]) {
      assert rows[r] in rows;
    }
  }

  /** Accepts exactly the verified modules of word loads and stores. */
  method BuildIndexedComputePackage(m: Module) returns (r: Option<IndexedComputePackage>)
    ensures r.Some? <==> Verified(m) && forall i | i in m.instructions ::
              (i.op.Load? || i.op.Store?) && i.size == 4 && i.offset % 4 == 0
    ensures r.Some? ==>
              && r.value.rootSchema == m.rootSchema
              && RowsExact(m.instructions, r.value.referenced)
              && (exists tableIndex ::
                    |tableIndex| == |m.instructions| && FirstSeen(m.instructions, r.value.referenced, tableIndex))
              && Faithful(m, r.value.referenced, r.value.kernels) && Follows(m, r.value.referenced, r.value.kernels)
  {
    var verified, _ := Verify(m);
    if !verified {
      return None;
    }
    var ok, rows, tableIndex := FirstSeenRows(m.instructions);
    if !ok {
      return None;
    }
    EmittedIsFaithful(m, rows);
    forall k | 0 <= k < |m.instructions|
      ensures m.instructions[k].allocation in rows && tableIndex[k] == Row(rows, m.instructions[k].allocation)
    {
      assert SeenAt(m.instructions, rows, tableIndex[k], k);
      RowIsUnique(rows, tableIndex[k]);
    }
    var kernels := EmitIndexed(m, rows, tableIndex);
    r := Some(IndexedComputePackage(m.rootSchema, rows, kernels));
  }
}
