/** Modules as canonical JSON documents (src/ir/ir.cpp, `serialize_module` and `parse_module`). */
module IrText {
  import opened Ir
  import opened Wrappers
  import opened Json
  import opened JsonText

  // ------------------------------------------------------------ names

  function OpName(op: Op): string {
    match op
    case Load => "load"
    case Store => "store"
    case AtomicAdd => "atomic_add"
    case PublishOp => "publish"
    case LoadRef => "load_ref"
    case LoadVia => "load_via"
    case StoreVia => "store_via"
    case UnknownOp(name) => name
  }

  function OpFromName(name: string): Op {
    if name == "load" then Load
    else if name == "store" then Store
    else if name == "atomic_add" then AtomicAdd
    else if name == "publish" then PublishOp
    else if name == "load_ref" then LoadRef
    else if name == "load_via" then LoadVia
    else if name == "store_via" then StoreVia
    else UnknownOp(name)
  }

  function AccessName(access: Access): string {
    match access
    case NoAccess => "none"
    case Read => "read"
    case Write => "write"
    case Atomic => "atomic"
    case Publish => "publish"
  }

  function AccessFromName(name: string): Option<Access> {
    if name == "none" then Some(NoAccess)
    else if name == "read" then Some(Read)
    else if name == "write" then Some(Write)
    else if name == "atomic" then Some(Atomic)
    else if name == "publish" then Some(Publish)
    else None
  }

  // ------------------------------------------------------------ values

  /** The conversion to a signed 64-bit number; large values turn negative. */
  function AsSigned(x: U64): I64 {
    if x <= I64_MAX then x else x - U64_MAX - 1
  }

  predicate CarriesValue(op: Op) {
    op.Store? || op.AtomicAdd? || op.StoreVia?
  }

  function Number(x: U64): Value {
    Int(AsSigned(x))
  }

  function OptionalEntry(present: bool, e: Entry): seq<Entry> {
    if present then [e] else []
  }

  /** The entries in the order in which they are put into the map. */
  function InstructionList(i: Instruction): seq<Entry> {
    [Entry("allocation", Number(i.allocation)), Entry("generation", Number(i.generation)),
     Entry("offset", Number(i.offset)), Entry("op", Str(OpName(i.op))),
     Entry("representation_epoch", Number(i.epoch)), Entry("size", Number(i.size))]
    + (OptionalEntry(CarriesValue(i.op), Entry("value", Int(i.value)))
    + (OptionalEntry(i.IsVia(), Entry("ref_operand", Number(i.refOperand)))
    + OptionalEntry(i.source != "", Entry("source", Str(i.source)))))
  }

  function EffectList(e: Effect): seq<Entry> {
    [Entry("access", Str(AccessName(e.access))), Entry("allocation", Number(e.allocation)), Entry("offset", Number(e.offset)),
     Entry("representation_epoch", Number(e.epoch)), Entry("size", Number(e.size))]
  }

  function PointerEdgeList(e: PointerEdge): seq<Entry> {
    [Entry("field_offset", Number(e.fieldOffset)), Entry("from_allocation", Number(e.fromAllocation)),
     Entry("to_allocation", Number(e.toAllocation))]
  }

  function InstructionValue(i: Instruction): Value {
    Obj(MapOf(InstructionList(i)))
  }

  function EffectValue(e: Effect): Value {
    Obj(MapOf(EffectList(e)))
  }

  function PointerEdgeValue(e: PointerEdge): Value {
    Obj(MapOf(PointerEdgeList(e)))
  }

  function InstructionValues(s: seq<Instruction>): (r: seq<Value>)
    ensures |r| == |s| && forall k | 0 <= k < |r| :: r[k] == InstructionValue(s[k])
  {
    seq(|s|, k requires 0 <= k < |s| => InstructionValue(s[k]))
  }

  function EffectValues(s: seq<Effect>): (r: seq<Value>)
    ensures |r| == |s| && forall k | 0 <= k < |r| :: r[k] == EffectValue(s[k])
  {
    seq(|s|, k requires 0 <= k < |s| => EffectValue(s[k]))
  }

  function PointerEdgeValues(s: seq<PointerEdge>): (r: seq<Value>)
    ensures |r| == |s| && forall k | 0 <= k < |r| :: r[k] == PointerEdgeValue(s[k])
  {
    seq(|s|, k requires 0 <= k < |s| => PointerEdgeValue(s[k]))
  }

  function ModuleList(m: Module): seq<Entry> {
    [Entry("effects", Arr(EffectValues(m.declaredEffects))), Entry("instructions", Arr(InstructionValues(m.instructions))),
     Entry("pointer_edges", Arr(PointerEdgeValues(m.declaredPointerEdges))), Entry("root_schema", Str(m.rootSchema)),
     Entry("schema", Str("vg.ir/v1")), Entry("version", Number(m.version))]
  }

  // ------------------------------------------------------------ reading values

  function AsU64(v: Lookup): Option<U64> {
    if v.Present? && v.value.Int? && v.value.number >= 0 then Some(v.value.number) else None
  }

  function AsU32(v: Lookup): Option<U32> {
    var x := AsU64(v);
    if x.Some? && x.value <= U32_MAX then Some(x.value) else None
  }

  function AsText(v: Lookup): Option<string> {
    if v.Present? && v.value.Str? then Some(v.value.text) else None
  }

  /** An optional field: its default when absent, a failure when malformed. */
  function Or<T>(present: bool, read: Option<T>, default: T): Option<T> {
    if present then read else Some(default)
  }

  function ReadInstruction(v: Value): Option<Instruction> {
    if !v.Obj? then None
    else
      var o := v.entries;
      var op, allocation, offset := AsText(Find(o, "op")), AsU64(Find(o, "allocation")), AsU64(Find(o, "offset"));
      var size, generation := AsU64(Find(o, "size")), AsU32(Find(o, "generation"));
      var epochField, valueField := Find(o, "representation_epoch"), Find(o, "value");
      var refField, sourceField := Find(o, "ref_operand"), Find(o, "source");
      var epoch := Or(epochField.Present?, AsU32(epochField), 0 as U32);
      var value: Option<I64> :=
        if valueField.Absent? then Some(0) else if valueField.value.Int? then Some(valueField.value.number) else None;
      var refOperand := Or(refField.Present?, AsU64(refField), 0 as U64);
      var source := Or(sourceField.Present?, AsText(sourceField), "");
      if op.Some? && allocation.Some? && offset.Some? && size.Some? && generation.Some? && epoch.Some? && value.Some?
         && refOperand.Some? && source.Some? then
        Some(Instruction(OpFromName(op.value), allocation.value, offset.value, size.value, value.value, generation.value,
                         epoch.value, refOperand.value, source.value))
      else None
  }

  function ReadEffect(v: Value): Option<Effect> {
    if !v.Obj? then None
    else
      var o := v.entries;
      var allocation, offset, size := AsU64(Find(o, "allocation")), AsU64(Find(o, "offset")), AsU64(Find(o, "size"));
      var name, epoch := AsText(Find(o, "access")), AsU32(Find(o, "representation_epoch"));
      if allocation.Some? && offset.Some? && size.Some? && name.Some? && AccessFromName(name.value).Some? && epoch.Some? then
        Some(Effect(allocation.value, offset.value, size.value, AccessFromName(name.value).value, epoch.value))
      else None
  }

  function ReadPointerEdge(v: Value): Option<PointerEdge> {
    if !v.Obj? then None
    else
      var o := v.entries;
      var from, field, to := AsU64(Find(o, "from_allocation")), AsU64(Find(o, "field_offset")), AsU64(Find(o, "to_allocation"));
      if from.Some? && field.Some? && to.Some? then Some(PointerEdge(from.value, field.value, to.value)) else None
  }

  /** Every value read by `read`, in order, or failure. */
  function ReadAll<T>(items: seq<Value>, read: Value -> Option<T>): Option<seq<T>> {
    if items == [] then Some([])
    else
      var n := |items| - 1;
      var front, last := ReadAll(items[..n], read), read(items[n]);
      if front.Some? && last.Some? then Some(front.value + [last.value]) else None
  }

  /** A list that must be there, or, for effects and edges, may be missing. */
  function ReadList<T>(v: Lookup, required: bool, read: Value -> Option<T>): Option<seq<T>> {
    if v.Absent? then (if required then None else Some([]))
    else if v.value.Arr? then ReadAll(v.value.items, read) else None
  }

  function ReadModule(v: Value): Option<Module> {
    if !v.Obj? then None
    else
      var o := v.entries;
      var schema, version, root := AsText(Find(o, "schema")), AsU32(Find(o, "version")), AsText(Find(o, "root_schema"));
      var instructions := ReadList(Find(o, "instructions"), true, ReadInstruction);
      var effects := ReadList(Find(o, "effects"), false, ReadEffect);
      var edges := ReadList(Find(o, "pointer_edges"), false, ReadPointerEdge);
      if schema == Some("vg.ir/v1") && version.Some? && root.Some? && instructions.Some? && effects.Some? && edges.Some? then
        Some(Module(version.value, root.value, instructions.value, effects.value, edges.value))
      else None
  }

  // ------------------------------------------------------------ the code's loops

  method ReadInstructions(items: seq<Value>) returns (r: Option<seq<Instruction>>)
    ensures r == ReadAll(items, ReadInstruction)
  {
    var instructions := [];
    for k := 0 to |items|
      invariant ReadAll(items[..k], ReadInstruction) == Some(instructions)
    {
      assert items[..k + 1][..k] == items[..k];
      var i := ReadInstruction(items[k]);
      if i.None? {
        ReadAllFails(items, k, ReadInstruction);
        return None;
      }
      instructions := instructions + [i.value];
    }
    assert items[..|items|] == items;
    r := Some(instructions);
  }

  lemma {:induction false} ReadAllFails<T>(items: seq<Value>, k: nat, read: Value -> Option<T>)
    requires k < |items| && read(items[k]).None?
    ensures ReadAll(items, read).None?
  {
    if k < |items| - 1 {
      ReadAllFails(items[..|items| - 1], k, read);
    }
  }

  // ------------------------------------------------------------ round trip

  /** A name no known operation has. */
  predicate ProperOp(op: Op) {
    op.UnknownOp? ==> OpFromName(op.name) == op
  }

  predicate ProperOps(m: Module) {
    forall i | i in m.instructions :: ProperOp(i.op)
  }

  lemma OpRoundTrip(op: Op)
    requires ProperOp(op)
    ensures OpFromName(OpName(op)) == op
  {}

  lemma AccessRoundTrip(access: Access)
    ensures AccessFromName(AccessName(access)) == Some(access)
  {}

  /** The names by which operations and accesses are written. */
  lemma WrittenNames()
    ensures OpName(Load) == "load" && OpName(Store) == "store" && OpName(AtomicAdd) == "atomic_add"
    ensures OpName(PublishOp) == "publish" && OpName(LoadRef) == "load_ref" && OpName(LoadVia) == "load_via"
    ensures OpName(StoreVia) == "store_via" && forall name :: OpName(UnknownOp(name)) == name
    ensures AccessName(NoAccess) == "none" && AccessName(Read) == "read" && AccessName(Write) == "write"
    ensures AccessName(Atomic) == "atomic" && AccessName(Publish) == "publish"
  {}

  lemma EffectFields(e: Effect)
    ensures var o := EffectList(e);
            && |o| == 5 && Find(o, "access") == Present(Str(AccessName(e.access)))
            && Find(o, "allocation") == Present(Number(e.allocation)) && Find(o, "offset") == Present(Number(e.offset))
            && Find(o, "representation_epoch") == Present(Number(e.epoch)) && Find(o, "size") == Present(Number(e.size))
  {
    var o := EffectList(e);
    assert o[0].key == "access" && o[1].key == "allocation" && o[2].key == "offset";
    assert o[3].key == "representation_epoch" && o[4].key == "size";
    FindAt(o, 0);
    FindAt(o, 1);
    FindAt(o, 2);
    FindAt(o, 3);
    FindAt(o, 4);
  }

  lemma PointerEdgeFields(e: PointerEdge)
    ensures var o := PointerEdgeList(e);
            && |o| == 3 && Find(o, "field_offset") == Present(Number(e.fieldOffset))
            && Find(o, "from_allocation") == Present(Number(e.fromAllocation))
            && Find(o, "to_allocation") == Present(Number(e.toAllocation))
  {
    var o := PointerEdgeList(e);
    assert o[0].key == "field_offset" && o[1].key == "from_allocation" && o[2].key == "to_allocation";
    FindAt(o, 0);
    FindAt(o, 1);
    FindAt(o, 2);
  }

  lemma InstructionFields(i: Instruction)
    ensures var o := InstructionList(i);
            && Find(o, "allocation") == Present(Number(i.allocation)) && Find(o, "generation") == Present(Number(i.generation))
            && Find(o, "offset") == Present(Number(i.offset)) && Find(o, "op") == Present(Str(OpName(i.op)))
            && Find(o, "representation_epoch") == Present(Number(i.epoch)) && Find(o, "size") == Present(Number(i.size))
            && Find(o, "value") == (if CarriesValue(i.op) then Present(Int(i.value)) else Absent)
            && Find(o, "ref_operand") == (if i.IsVia() then Present(Number(i.refOperand)) else Absent)
            && Find(o, "source") == (if i.source != "" then Present(Str(i.source)) else Absent)
  {
    var o := InstructionList(i);
    assert o[0].key == "allocation" && o[1].key == "generation" && o[2].key == "offset";
    assert o[3].key == "op" && o[4].key == "representation_epoch" && o[5].key == "size";
    FindAt(o, 0);
    FindAt(o, 1);
    FindAt(o, 2);
    FindAt(o, 3);
    FindAt(o, 4);
    FindAt(o, 5);
    OptionalFields(i, o[..6]);
  }

  lemma OptionalFields(i: Instruction, base: seq<Entry>)
    requires forall k | 0 <= k < |base| ::
               base[k].key != "value" && base[k].key != "ref_operand" && base[k].key != "source"
    ensures var o := base + (OptionalEntry(CarriesValue(i.op), Entry("value", Int(i.value)))
                             + (OptionalEntry(i.IsVia(), Entry("ref_operand", Number(i.refOperand)))
                                + OptionalEntry(i.source != "", Entry("source", Str(i.source)))));
            && Find(o, "value") == (if CarriesValue(i.op) then Present(Int(i.value)) else Absent)
            && Find(o, "ref_operand") == (if i.IsVia() then Present(Number(i.refOperand)) else Absent)
            && Find(o, "source") == (if i.source != "" then Present(Str(i.source)) else Absent)
  {
    OptionalField(i, base, "value");
    OptionalField(i, base, "ref_operand");
    OptionalField(i, base, "source");
  }

  lemma OptionalField(i: Instruction, base: seq<Entry>, key: string)
    requires forall k | 0 <= k < |base| :: base[k].key != key
    ensures var v, r, s := OptionalEntry(CarriesValue(i.op), Entry("value", Int(i.value))),
                           OptionalEntry(i.IsVia(), Entry("ref_operand", Number(i.refOperand))),
                           OptionalEntry(i.source != "", Entry("source", Str(i.source)));
            Find(base + (v + (r + s)), key) ==
            if Find(v, key).Present? then Find(v, key) else if Find(r, key).Present? then Find(r, key) else Find(s, key)
    ensures forall present, e: Entry :: Find(OptionalEntry(present, e), key) == if present && e.key == key then Present(e.value) else Absent
  {
    var v, r, s := OptionalEntry(CarriesValue(i.op), Entry("value", Int(i.value))),
                   OptionalEntry(i.IsVia(), Entry("ref_operand", Number(i.refOperand))),
                   OptionalEntry(i.source != "", Entry("source", Str(i.source)));
    FindNone(base, key);
    FindAppend(base, v + (r + s), key);
    FindAppend(v, r + s, key);
    FindAppend(r, s, key);
    forall present, e: Entry
      ensures Find(OptionalEntry(present, e), key) == if present && e.key == key then Present(e.value) else Absent
    {
      assert [e][1..] == [];
    }
  }

  /** Numbers that survive the conversion to a signed one. */
  predicate Fits63(x: U64) {
    x <= I64_MAX
  }

  predicate InstructionFits(i: Instruction) {
    Fits63(i.allocation) && Fits63(i.offset) && Fits63(i.size) && (i.IsVia() ==> Fits63(i.refOperand))
  }

  predicate EffectFits(e: Effect) {
    Fits63(e.allocation) && Fits63(e.offset) && Fits63(e.size)
  }

  predicate PointerEdgeFits(e: PointerEdge) {
    Fits63(e.fromAllocation) && Fits63(e.fieldOffset) && Fits63(e.toAllocation)
  }

  ghost predicate ModuleFits(m: Module) {
    && (forall i | i in m.instructions :: InstructionFits(i))
    && (forall e | e in m.declaredEffects :: EffectFits(e))
    && (forall e | e in m.declaredPointerEdges :: PointerEdgeFits(e))
  }

  /** The fields an operation does not use are not written. */
  function Normalized(i: Instruction): Instruction {
    i.(value := if CarriesValue(i.op) then i.value else 0, refOperand := if i.IsVia() then i.refOperand else 0)
  }

  function NormalizedAll(s: seq<Instruction>): (r: seq<Instruction>)
    ensures |r| == |s| && forall k | 0 <= k < |r| :: r[k] == Normalized(s[k])
  {
    seq(|s|, k requires 0 <= k < |s| => Normalized(s[k]))
  }

  function NormalizedModule(m: Module): Module {
    m.(instructions := NormalizedAll(m.instructions))
  }

  /** An instruction reads back exactly when its numbers fit 63 bits. */
  lemma InstructionRoundTrip(i: Instruction)
    requires ProperOp(i.op)
    ensures ReadInstruction(InstructionValue(i)) == if InstructionFits(i) then Some(Normalized(i)) else None
  {
    var list := InstructionList(i);
    InstructionFields(i);
    FindMapOf(list, "allocation");
    FindMapOf(list, "generation");
    FindMapOf(list, "offset");
    FindMapOf(list, "op");
    FindMapOf(list, "representation_epoch");
    FindMapOf(list, "size");
    FindMapOf(list, "value");
    FindMapOf(list, "ref_operand");
    FindMapOf(list, "source");
    OpRoundTrip(i.op);
  }

  lemma EffectRoundTrip(e: Effect)
    ensures ReadEffect(EffectValue(e)) == if EffectFits(e) then Some(e) else None
  {
    var list := EffectList(e);
    EffectFields(e);
    FindMapOf(list, "access");
    FindMapOf(list, "allocation");
    FindMapOf(list, "offset");
    FindMapOf(list, "representation_epoch");
    FindMapOf(list, "size");
    AccessRoundTrip(e.access);
  }

  lemma PointerEdgeRoundTrip(e: PointerEdge)
    ensures ReadPointerEdge(PointerEdgeValue(e)) == if PointerEdgeFits(e) then Some(e) else None
  {
    var list := PointerEdgeList(e);
    PointerEdgeFields(e);
    FindMapOf(list, "field_offset");
    FindMapOf(list, "from_allocation");
    FindMapOf(list, "to_allocation");
  }

  /** Each value is read as the corresponding outcome. */
  ghost predicate ReadsAs<T(!new)>(items: seq<Value>, read: Value -> Option<T>, outcomes: seq<Option<T>>) {
    |items| == |outcomes| && forall k | 0 <= k < |items| :: read(items[k]) == outcomes[k]
  }

  /** A list reads back exactly when each of its members does. */
  lemma {:induction false} ReadAllMeaning<T(!new)>(
    items: seq<Value>, read: Value -> Option<T>, outcomes: seq<Option<T>>, expected: seq<T>)
    requires ReadsAs(items, read, outcomes) && |expected| == |items|
    requires forall k | 0 <= k < |items| && outcomes[k].Some? :: outcomes[k].value == expected[k]
    ensures ReadAll(items, read) == if forall k | 0 <= k < |items| :: outcomes[k].Some? then Some(expected) else None
  {
    if items != [] {
      var n := |items| - 1;
      ReadAllMeaning(items[..n], read, outcomes[..n], expected[..n]);
      assert expected == expected[..n] + [expected[n]];
      if !(forall k | 0 <= k < |items| :: outcomes[k].Some?) {
        var k :| 0 <= k < |items| && outcomes[k].None?;
        ReadAllFails(items, k, read);
      } else {
        assert forall k | 0 <= k < n :: outcomes[..n][k] == outcomes[k];
      }
    }
  }

  function InstructionOutcomes(s: seq<Instruction>): (r: seq<Option<Instruction>>)
    ensures |r| == |s| && forall k | 0 <= k < |r| :: r[k] == if InstructionFits(s[k]) then Some(Normalized(s[k])) else None
  {
    seq(|s|, k requires 0 <= k < |s| => if InstructionFits(s[k]) then Some(Normalized(s[k])) else None)
  }

  lemma InstructionsRead(s: seq<Instruction>)
    requires forall i | i in s :: ProperOp(i.op)
    ensures ReadsAs(InstructionValues(s), ReadInstruction, InstructionOutcomes(s))
  {
    forall k | 0 <= k < |s| ensures ReadInstruction(InstructionValues(s)[k]) == InstructionOutcomes(s)[k] {
      InstructionRoundTrip(s[k]);
    }
  }

  lemma ValuesReadBack(values: seq<Value>, s: seq<Instruction>)
    requires ReadsAs(values, ReadInstruction, InstructionOutcomes(s))
    ensures ReadAll(values, ReadInstruction) ==
            if forall i | i in s :: InstructionFits(i) then Some(NormalizedAll(s)) else None
  {
    var outcomes := InstructionOutcomes(s);
    ReadAllMeaning(values, ReadInstruction, outcomes, NormalizedAll(s));
    assert (forall k | 0 <= k < |s| :: outcomes[k].Some?) <==> forall i | i in s :: InstructionFits(i);
  }

  lemma InstructionsRoundTrip(s: seq<Instruction>)
    requires forall i | i in s :: ProperOp(i.op)
    ensures ReadAll(InstructionValues(s), ReadInstruction) ==
            if forall i | i in s :: InstructionFits(i) then Some(NormalizedAll(s)) else None
  {
    InstructionsRead(s);
    ValuesReadBack(InstructionValues(s), s);
  }

  lemma EffectsRoundTrip(s: seq<Effect>)
    ensures ReadAll(EffectValues(s), ReadEffect) == if forall e | e in s :: EffectFits(e) then Some(s) else None
  {
    forall k | 0 <= k < |s| ensures ReadEffect(EffectValues(s)[k]) == if EffectFits(s[k]) then Some(s[k]) else None {
      EffectRoundTrip(s[k]);
    }
    ReadAllMeaning(EffectValues(s), ReadEffect,
                   seq(|s|, k requires 0 <= k < |s| => if EffectFits(s[k]) then Some(s[k]) else None), s);
  }

  lemma PointerEdgesRoundTrip(s: seq<PointerEdge>)
    ensures ReadAll(PointerEdgeValues(s), ReadPointerEdge) == if forall e | e in s :: PointerEdgeFits(e) then Some(s) else None
  {
    forall k | 0 <= k < |s|
      ensures ReadPointerEdge(PointerEdgeValues(s)[k]) == if PointerEdgeFits(s[k]) then Some(s[k]) else None
    {
      PointerEdgeRoundTrip(s[k]);
    }
    ReadAllMeaning(PointerEdgeValues(s), ReadPointerEdge,
                   seq(|s|, k requires 0 <= k < |s| => if PointerEdgeFits(s[k]) then Some(s[k]) else None), s);
  }

  function ModuleValue(m: Module): Value {
    Obj(MapOf(ModuleList(m)))
  }

  /** A document with these fields. */
  ghost predicate HasFields(
    o: seq<Entry>, instructions: seq<Value>, effects: seq<Value>, edges: seq<Value>, root: string, version: U32)
  {
    && Find(o, "effects") == Present(Arr(effects))
    && Find(o, "instructions") == Present(Arr(instructions))
    && Find(o, "pointer_edges") == Present(Arr(edges))
    && Find(o, "root_schema") == Present(Str(root)) && Find(o, "schema") == Present(Str("vg.ir/v1"))
    && Find(o, "version") == Present(Number(version))
  }

  ghost predicate Describes(o: seq<Entry>, m: Module) {
    HasFields(o, InstructionValues(m.instructions), EffectValues(m.declaredEffects),
              PointerEdgeValues(m.declaredPointerEdges), m.rootSchema, m.version)
  }

  lemma ModuleFields(m: Module)
    ensures Describes(MapOf(ModuleList(m)), m)
  {
    var list := ModuleList(m);
    assert list[0].key == "effects" && list[1].key == "instructions" && list[2].key == "pointer_edges";
    assert list[3].key == "root_schema" && list[4].key == "schema" && list[5].key == "version";
    FindAt(list, 0);
    FindAt(list, 1);
    FindAt(list, 2);
    FindAt(list, 3);
    FindAt(list, 4);
    FindAt(list, 5);
    FindMapOf(list, "effects");
    FindMapOf(list, "instructions");
    FindMapOf(list, "pointer_edges");
    FindMapOf(list, "root_schema");
    FindMapOf(list, "schema");
    FindMapOf(list, "version");
  }

  lemma DescribedReadsBack(o: seq<Entry>, m: Module)
    requires Describes(o, m) && ProperOps(m)
    ensures ReadModule(Obj(o)) == if ModuleFits(m) then Some(NormalizedModule(m)) else None
  {
    InstructionsRoundTrip(m.instructions);
    EffectsRoundTrip(m.declaredEffects);
    PointerEdgesRoundTrip(m.declaredPointerEdges);
    ReadModuleOf(o, InstructionValues(m.instructions), EffectValues(m.declaredEffects),
                 PointerEdgeValues(m.declaredPointerEdges), m.rootSchema, m.version);
  }

  lemma ReadModuleOf(
    o: seq<Entry>, instructions: seq<Value>, effects: seq<Value>, edges: seq<Value>, root: string, version: U32)
    requires HasFields(o, instructions, effects, edges, root, version)
    ensures var i := ReadAll<Instruction>(instructions, ReadInstruction);
            var e := ReadAll<Effect>(effects, ReadEffect);
            var p := ReadAll<PointerEdge>(edges, ReadPointerEdge);
            ReadModule(Obj(o)) ==
            if i.Some? && e.Some? && p.Some? then Some(Module(version, root, i.value, e.value, p.value)) else None
  {}

  /** A module reads back, without its unused fields, exactly when all its unsigned fields are below 2^63. */
  lemma ModuleRoundTrip(m: Module)
    requires ProperOps(m)
    ensures ReadModule(ModuleValue(m)) == if ModuleFits(m) then Some(NormalizedModule(m)) else None
  {
    ModuleFields(m);
    DescribedReadsBack(MapOf(ModuleList(m)), m);
  }

  lemma NormalizedSameValue(m: Module)
    ensures ModuleValue(NormalizedModule(m)) == ModuleValue(m)
  {
    var a, b := InstructionValues(NormalizedAll(m.instructions)), InstructionValues(m.instructions);
    forall k | 0 <= k < |a| ensures a[k] == b[k] {
      assert InstructionList(Normalized(m.instructions[k])) == InstructionList(m.instructions[k]);
    }
    assert a == b;
  }

  lemma MapIsWellFormed(list: seq<Entry>)
    requires forall e | e in list :: WellFormed(e.value)
    ensures WellFormed(Obj(MapOf(list)))
  {
    MapOfAscends(list);
    MapOfMembers(list);
    var r := MapOf(list);
    forall k | 0 <= k < |r| ensures WellFormed(r[k].value) {
      assert r[k] in r;
    }
  }

  lemma ScalarsAreWellFormed(list: seq<Entry>)
    requires forall k | 0 <= k < |list| :: list[k].value.Int? || list[k].value.Str?
    ensures WellFormed(Obj(MapOf(list)))
  {
    forall e | e in list ensures WellFormed(e.value) {
      assert e.value.Int? || e.value.Str?;
    }
    MapIsWellFormed(list);
  }

  lemma InstructionIsWellFormed(i: Instruction)
    ensures WellFormed(InstructionValue(i))
  {
    ScalarsAreWellFormed(InstructionList(i));
  }

  lemma EffectIsWellFormed(e: Effect)
    ensures WellFormed(EffectValue(e))
  {
    ScalarsAreWellFormed(EffectList(e));
  }

  lemma PointerEdgeIsWellFormed(e: PointerEdge)
    ensures WellFormed(PointerEdgeValue(e))
  {
    ScalarsAreWellFormed(PointerEdgeList(e));
  }

  lemma ListsAreWellFormed(m: Module)
    ensures forall v | v in InstructionValues(m.instructions) :: WellFormed(v)
    ensures forall v | v in EffectValues(m.declaredEffects) :: WellFormed(v)
    ensures forall v | v in PointerEdgeValues(m.declaredPointerEdges) :: WellFormed(v)
  {
    forall i: Instruction ensures WellFormed(InstructionValue(i)) {
      InstructionIsWellFormed(i);
    }
    forall e: Effect ensures WellFormed(EffectValue(e)) {
      EffectIsWellFormed(e);
    }
    forall e: PointerEdge ensures WellFormed(PointerEdgeValue(e)) {
      PointerEdgeIsWellFormed(e);
    }
  }

  lemma ArrayIsWellFormed(items: seq<Value>)
    requires forall v | v in items :: WellFormed(v)
    ensures WellFormed(Arr(items))
  {
    forall k | 0 <= k < |items| ensures WellFormed(items[k]) {
      assert items[k] in items;
    }
  }

  lemma ModuleIsWellFormed(m: Module)
    ensures WellFormed(ModuleValue(m))
  {
    ListsAreWellFormed(m);
    ArrayIsWellFormed(InstructionValues(m.instructions));
    ArrayIsWellFormed(EffectValues(m.declaredEffects));
    ArrayIsWellFormed(PointerEdgeValues(m.declaredPointerEdges));
    var list := ModuleList(m);
    forall k | 0 <= k < |list| ensures WellFormed(list[k].value) {}
    MapIsWellFormed(list);
  }

  /** Serialising succeeds exactly when the printer can write every string of the module. */
  method SerializeModule(m: Module) returns (r: Option<string>)
    ensures r.Some? <==> Writable(ModuleValue(m))
    ensures r.Some? ==> r.value == Print(ModuleValue(m))
  {
    var instructions, effects, edges := [], [], [];
    for k := 0 to |m.instructions|
      invariant instructions == InstructionValues(m.instructions[..k])
    {
      instructions := instructions + [InstructionValue(m.instructions[k])];
    }
    for k := 0 to |m.declaredEffects|
      invariant effects == EffectValues(m.declaredEffects[..k])
    {
      effects := effects + [EffectValue(m.declaredEffects[k])];
    }
    for k := 0 to |m.declaredPointerEdges|
      invariant edges == PointerEdgeValues(m.declaredPointerEdges[..k])
    {
      edges := edges + [PointerEdgeValue(m.declaredPointerEdges[k])];
    }
    assert m.instructions[..|m.instructions|] == m.instructions && m.declaredEffects[..|m.declaredEffects|] == m.declaredEffects;
    assert m.declaredPointerEdges[..|m.declaredPointerEdges|] == m.declaredPointerEdges;
    ModuleIsWellFormed(m);
    r := Canonical(Obj(MapOf(
      [Entry("effects", Arr(effects)), Entry("instructions", Arr(instructions)), Entry("pointer_edges", Arr(edges)),
       Entry("root_schema", Str(m.rootSchema)), Entry("schema", Str("vg.ir/v1")), Entry("version", Number(m.version))])));
  }

  // ------------------------------------------------------------ texts

  /** The module a text is accepted as: the fields are read, and what was read must have a canonical text itself. */
  function Accepted(text: string): Option<Module> {
    if !Parse(text).Good? then None
    else
      var m := ReadModule(Parse(text).value);
      if m.Some? && Writable(ModuleValue(m.value)) then m else None
  }

  method ParseModule(text: string) returns (r: Option<Module>)
    ensures r == Accepted(text)
  {
    var document := ParseText(text);
    if document.None? || !document.value.Obj? {
      return None;
    }
    var o := document.value.entries;
    var schema, version, root := AsText(Find(o, "schema")), AsU32(Find(o, "version")), AsText(Find(o, "root_schema"));
    if schema != Some("vg.ir/v1") || version.None? || root.None? {
      return None;
    }
    var list := Find(o, "instructions");
    if list.Absent? || !list.value.Arr? {
      return None;
    }
    var instructions := ReadInstructions(list.value.items);
    var effects := ReadList(Find(o, "effects"), false, ReadEffect);
    var edges := ReadList(Find(o, "pointer_edges"), false, ReadPointerEdge);
    if instructions.None? || effects.None? || edges.None? {
      return None;
    }
    var m := Module(version.value, root.value, instructions.value, effects.value, edges.value);
    var canonical := SerializeModule(m);
    if canonical.None? {
      return None;
    }
    r := Some(m);
  }

  /** A module's canonical text is always a document, and is accepted exactly when the module's unsigned fields are
      below 2^63. */
  lemma TextRoundTrip(m: Module)
    requires Writable(ModuleValue(m)) && ProperOps(m)
    ensures Parse(Print(ModuleValue(m))) == Good(ModuleValue(m), [])
    ensures Accepted(Print(ModuleValue(m))) == if ModuleFits(m) then Some(NormalizedModule(m)) else None
  {
    ModuleIsWellFormed(m);
    ParseCanonical(ModuleValue(m));
    ModuleRoundTrip(m);
    NormalizedSameValue(m);
  }

  /** Serialising, parsing and serialising again gives the same text, for every module that can be serialised and
      whose unsigned fields are below 2^63. */
  lemma SerializeParseSerialize(m: Module)
    requires Writable(ModuleValue(m)) && ModuleFits(m) && ProperOps(m)
    ensures var text := Print(ModuleValue(m));
            && Accepted(text) == Some(NormalizedModule(m))
            && Print(ModuleValue(NormalizedModule(m))) == text
  {
    TextRoundTrip(m);
    NormalizedSameValue(m);
  }

  /** What has been read satisfies `good`, if every single read does. */
  lemma {:induction false} ReadAllGood<T(!new)>(items: seq<Value>, read: Value -> Option<T>, good: T -> bool)
    requires ReadAll(items, read).Some? && forall v | read(v).Some? :: good(read(v).value)
    ensures forall x | x in ReadAll(items, read).value :: good(x)
  {
    if items != [] {
      ReadAllGood(items[..|items| - 1], read, good);
    }
  }

  lemma OpsAreProper(name: string)
    ensures ProperOp(OpFromName(name))
  {}

  /** No document yields a field of 2^63 or more. */
  lemma ReadFits(v: Value)
    requires ReadModule(v).Some?
    ensures ModuleFits(ReadModule(v).value) && ProperOps(ReadModule(v).value)
  {
    var o := v.entries;
    ReadAllGood(Find(o, "instructions").value.items, ReadInstruction, i => InstructionFits(i) && ProperOp(i.op));
    if Find(o, "effects").Present? {
      ReadAllGood(Find(o, "effects").value.items, ReadEffect, EffectFits);
    }
    if Find(o, "pointer_edges").Present? {
      ReadAllGood(Find(o, "pointer_edges").value.items, ReadPointerEdge, PointerEdgeFits);
    }
  }

  /** Whatever text is accepted, the canonical text of what it was accepted as is accepted as the same module, without
      its unused fields. */
  lemma CanonicalTextIsAccepted(text: string)
    requires Accepted(text).Some?
    ensures var m := Accepted(text).value;
            Accepted(Print(ModuleValue(m))) == Some(NormalizedModule(m))
  {
    ReadFits(Parse(text).value);
    TextRoundTrip(Accepted(text).value);
  }

  // ------------------------------------------------------------ what can be written, and what cannot be read back

  ghost predicate WritableEntry(e: Entry) {
    Printable(e.key) && Writable(e.value)
  }

  lemma WritableMap(list: seq<Entry>)
    requires forall e | e in list :: WritableEntry(e)
    ensures Writable(Obj(MapOf(list)))
  {
    MapOfMembers(list);
    var o := MapOf(list);
    forall k | 0 <= k < |o| ensures Printable(o[k].key) && Writable(o[k].value) {
      assert o[k] in list && WritableEntry(o[k]);
    }
  }

  lemma NumberNames()
    ensures Printable("allocation") && Printable("generation") && Printable("offset") && Printable("size")
    ensures Printable("representation_epoch") && Printable("value") && Printable("ref_operand")
  {}

  lemma TextNames()
    ensures Printable("op") && Printable("source") && Printable("access")
    ensures Printable("field_offset") && Printable("from_allocation") && Printable("to_allocation")
  {}

  lemma ModuleNames()
    ensures Printable("effects") && Printable("instructions") && Printable("pointer_edges") && Printable("root_schema")
    ensures Printable("schema") && Printable("version") && Printable("vg.ir/v1")
  {}

  lemma AccessNames(access: Access)
    ensures Printable(AccessName(access))
  {}

  lemma InstructionEntriesWritable(i: Instruction)
    requires Printable(OpName(i.op)) && Printable(i.source)
    ensures forall e | e in InstructionList(i) :: WritableEntry(e)
  {
    NumberNames();
    TextNames();
    var numbers := ["allocation", "generation", "offset", "representation_epoch", "size", "value", "ref_operand"];
    forall e | e in InstructionList(i) ensures WritableEntry(e) {
      assert e.key in numbers || e == Entry("op", Str(OpName(i.op))) || e == Entry("source", Str(i.source));
    }
  }

  lemma InstructionWritable(i: Instruction)
    ensures Writable(InstructionValue(i)) <==> Printable(OpName(i.op)) && Printable(i.source)
  {
    var list := InstructionList(i);
    if Printable(OpName(i.op)) && Printable(i.source) {
      InstructionEntriesWritable(i);
      WritableMap(list);
    }
    if Writable(Obj(MapOf(list))) {
      InstructionFields(i);
      FindMapOf(list, "op");
      FindMapOf(list, "source");
      WritableField(MapOf(list), "op");
      if i.source != "" {
        WritableField(MapOf(list), "source");
      }
    }
  }

  lemma EffectWritable(e: Effect)
    ensures Writable(EffectValue(e))
  {
    NumberNames();
    TextNames();
    AccessNames(e.access);
    WritableMap(EffectList(e));
  }

  lemma PointerEdgeWritable(e: PointerEdge)
    ensures Writable(PointerEdgeValue(e))
  {
    TextNames();
    WritableMap(PointerEdgeList(e));
  }

  lemma InstructionsWritable(s: seq<Instruction>)
    ensures Writable(Arr(InstructionValues(s))) <==> forall i | i in s :: Printable(OpName(i.op)) && Printable(i.source)
  {
    forall k | 0 <= k < |s|
      ensures Writable(InstructionValues(s)[k]) <==> Printable(OpName(s[k].op)) && Printable(s[k].source)
    {
      InstructionWritable(s[k]);
    }
  }

  lemma DeclarationsWritable(m: Module)
    ensures Writable(Arr(EffectValues(m.declaredEffects))) && Writable(Arr(PointerEdgeValues(m.declaredPointerEdges)))
  {
    forall k | 0 <= k < |m.declaredEffects| ensures Writable(EffectValues(m.declaredEffects)[k]) {
      EffectWritable(m.declaredEffects[k]);
    }
    forall k | 0 <= k < |m.declaredPointerEdges| ensures Writable(PointerEdgeValues(m.declaredPointerEdges)[k]) {
      PointerEdgeWritable(m.declaredPointerEdges[k]);
    }
  }

  /** A module can be serialised exactly when its schema name, its operation names and its source notes are free of
      control characters other than newline, carriage return and tab. */
  lemma WritableExactly(m: Module)
    ensures Writable(ModuleValue(m)) <==>
            Printable(m.rootSchema) && forall i | i in m.instructions :: Printable(OpName(i.op)) && Printable(i.source)
  {
    InstructionsWritable(m.instructions);
    if Printable(m.rootSchema) && Writable(Arr(InstructionValues(m.instructions))) {
      ModuleEntriesWritable(m);
      WritableMap(ModuleList(m));
    }
    if Writable(ModuleValue(m)) {
      ModuleFields(m);
      WritableField(MapOf(ModuleList(m)), "root_schema");
      WritableField(MapOf(ModuleList(m)), "instructions");
    }
  }

  lemma ModuleEntriesWritable(m: Module)
    requires Printable(m.rootSchema) && Writable(Arr(InstructionValues(m.instructions)))
    ensures forall e | e in ModuleList(m) :: WritableEntry(e)
  {
    ModuleNames();
    DeclarationsWritable(m);
  }

  /** One load of the byte at 2^63. */
  const HIGH_LOAD := Module(
    1, "root", [Instruction(Load, 1, 0x8000_0000_0000_0000, 1, 0, 1, 0, 0, "")],
    [Effect(1, 0x8000_0000_0000_0000, 1, Read, 0)], [])

  lemma HighLoadIsVerified()
    ensures Verified(HIGH_LOAD)
  {
    var i, e := HIGH_LOAD.instructions[0], HIGH_LOAD.declaredEffects[0];
    assert EffectCovers(e, i.AsEffect()) by {
      assert (Read.Bits() & Read.Bits()) == Read.Bits();
    }
    assert Declared(HIGH_LOAD, i.AsEffect());
  }

  lemma HighLoadIsWritable()
    ensures Writable(ModuleValue(HIGH_LOAD))
  {
    var i := HIGH_LOAD.instructions[0];
    assert Printable("root") && Printable("load") && Printable("");
    WritableExactly(HIGH_LOAD);
  }

  /** It is verified and has a canonical text, and that text is a document that is not accepted. */
  lemma HighLoadNotAccepted()
    ensures Verified(HIGH_LOAD) && Writable(ModuleValue(HIGH_LOAD))
    ensures Parse(Print(ModuleValue(HIGH_LOAD))).Good? && ReadModule(ModuleValue(HIGH_LOAD)) == None
    ensures Accepted(Print(ModuleValue(HIGH_LOAD))) == None
  {
    HighLoadIsVerified();
    HighLoadIsWritable();
    var i := HIGH_LOAD.instructions[0];
    NotRead(HIGH_LOAD, i);
  }

  lemma NotRead(m: Module, i: Instruction)
    requires Writable(ModuleValue(m)) && ProperOps(m) && i in m.instructions && !InstructionFits(i)
    ensures Parse(Print(ModuleValue(m))).Good? && ReadModule(ModuleValue(m)) == None
    ensures Accepted(Print(ModuleValue(m))) == None
  {
    TextRoundTrip(m);
    ModuleRoundTrip(m);
  }

  /** Verification ignores the fields that are not written, so it accepts a module exactly when it accepts what is
      read back. */
  lemma VerifiedSurvives(m: Module)
    ensures Verified(NormalizedModule(m)) <==> Verified(m)
  {
    var n := NormalizedModule(m);
    forall k: nat | k < |m.instructions|
      ensures WellFormedInstruction(n, k) <==> WellFormedInstruction(m, k)
      ensures n.instructions[k].AsEffect() == m.instructions[k].AsEffect() && n.instructions[k].IsVia() == m.instructions[k].IsVia()
    {
      assert n.instructions[k] == Normalized(m.instructions[k]);
    }
    forall k: nat | k < |m.instructions| ensures Declared(n, n.instructions[k].AsEffect()) <==> Declared(m, m.instructions[k].AsEffect()) {}
  }
}
