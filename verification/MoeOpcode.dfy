/**
  The opcode generator (script/renpy-codegen-moe-opcode.py). From one instruction table it generates
  an emitter (TypeScript), a size table and a dispatcher (C++). They are produced by separate code
  and have to agree on every operand; here the generated programs are data, and running them is a
  function or a loop over their steps.
 */
module MoeOpcode {
  import opened Bytes
  import opened Options

  // ---------- the instruction table ----------

  /**
    The type names the generator knows: those in both conversion tables, the heap types that only
    the C++ table has, `any`, and all others, which can only be names of enumeration maps.
   */
  datatype TypeName =
    | U8 | I8 | U16 | I16 | U32 | I32 | U64 | I64 | F32 | F64
    | HeapType(name: string)
    | AnyType
    | OtherType(name: string)

  /** `%name` is a memory operand, `$name` a plain one; `type?` is nullable. */
  datatype Operand = Operand(typeName: TypeName, memop: bool, nullable: bool)

  datatype Instruction = Instruction(name: string, operands: seq<Operand>)

  datatype EnumMap = EnumMap(typeName: TypeName, underlying: TypeName, members: seq<string>)

  /** Instruction `i` has opcode i + 1. */
  datatype Table = Table(instructions: seq<Instruction>, enums: seq<EnumMap>, poolEnd: nat, switchNext: nat)

  function Opcode(i: nat): nat { i + 1 }

  const MEMOP_SIZE := 4

  /** The types that have an entry in the TypeScript table, with their sizes in bytes. */
  function ScalarSize(typeName: TypeName): Option<nat>
  {
    match typeName
    case U8 => Some(1) case I8 => Some(1)
    case U16 => Some(2) case I16 => Some(2)
    case U32 => Some(4) case I32 => Some(4) case F32 => Some(4)
    case U64 => Some(8) case I64 => Some(8) case F64 => Some(8)
    case _ => None
  }

  /** How many bytes the writer method of a type writes, from `writeUint8Unsafe` to `writeFloat64Unsafe`. */
  function WriterWidth(typeName: TypeName): Option<nat>
  {
    match typeName
    case U8 | I8 => Some(1)
    case U16 | I16 => Some(2)
    case U32 | I32 | F32 => Some(4)
    case U64 | I64 | F64 => Some(8)
    case _ => None
  }

  /** The sizes of the C++ types from `uint8_t` to `double`. */
  function CppSize(typeName: TypeName): Option<nat>
  {
    match typeName
    case U8 => Some(1) case U16 => Some(2) case U32 => Some(4) case U64 => Some(8)
    case I8 => Some(1) case I16 => Some(2) case I32 => Some(4) case I64 => Some(8)
    case F32 => Some(4) case F64 => Some(8)
    case _ => None
  }

  predicate IsSigned(typeName: TypeName) { typeName in {I8, I16, I32, I64} }

  predicate IsFloat(typeName: TypeName) { typeName in {F32, F64} }

  /** The types that have an entry in the C++ table. */
  predicate HasCppType(typeName: TypeName) { CppSize(typeName).Some? || typeName.HeapType? }

  /** The first enumeration map of that name. */
  function FindEnum(enums: seq<EnumMap>, typeName: TypeName): Option<EnumMap>
  {
    if enums == [] then None
    else if enums[0].typeName == typeName then Some(enums[0])
    else FindEnum(enums[1..], typeName)
  }

  /** An enumeration is replaced by the type it is stored as. */
  function ReplacedType(enums: seq<EnumMap>, typeName: TypeName): TypeName
  {
    match FindEnum(enums, typeName)
    case None => typeName
    case Some(e) => e.underlying
  }

  // ---------- the generated emitter ----------

  /** The write of `width` bytes for one operand; None when the generator stops with a missing key. */
  function WriteWidth(enums: seq<EnumMap>, o: Operand): Option<nat>
  {
    if o.memop then Some(MEMOP_SIZE) else WriterWidth(ReplacedType(enums, o.typeName))
  }

  function WriteWidths(enums: seq<EnumMap>, operands: seq<Operand>): Option<seq<nat>>
  {
    if operands == [] then Some([])
    else
      var first, rest := WriteWidth(enums, operands[0]), WriteWidths(enums, operands[1..]);
      if first.None? || rest.None? then None else Some([first.value] + rest.value)
  }

  function Sum(widths: seq<nat>): nat { if widths == [] then 0 else widths[0] + Sum(widths[1..]) }

  /** `required_size` and the writes that follow the opcode word. */
  datatype Emitter = Emitter(requiredSize: nat, verb: nat, widths: seq<nat>)

  method CodegenEmitter(table: Table, i: nat) returns (r: Option<Emitter>)
    requires i < |table.instructions|
    ensures var widths := WriteWidths(table.enums, table.instructions[i].operands);
      r == if widths.None? then None
           else Some(Emitter(2 + Sum(widths.value), Verb(i, |table.instructions[i].operands|), widths.value))
  {
    var operands := table.instructions[i].operands;
    var requiredSize := 2;
    var widths: seq<nat> := [];
    for k := 0 to |operands|
      invariant requiredSize == 2 + Sum(widths) && |widths| == k
      invariant WriteWidths(table.enums, operands[..k]) == Some(widths)
    {
      WriteWidthsAppend(table.enums, operands[..k], operands[k]);
      assert operands[..k + 1] == operands[..k] + [operands[k]];
      WriteWidthsPrefix(table.enums, operands, k + 1);
      var width := WriteWidth(table.enums, operands[k]);
      if width.None? { return None; }
      SumAppend(widths, width.value);
      var size := if operands[k].memop then Some(MEMOP_SIZE) else ScalarSize(ReplacedType(table.enums, operands[k].typeName));
      requiredSize := requiredSize + size.value;
      widths := widths + [width.value];
    }
    assert operands[..|operands|] == operands;
    return Some(Emitter(requiredSize, Verb(i, |operands|), widths));
  }

  /** The opcode in the low byte, the number of operands above it. */
  function Verb(i: nat, n: nat): nat { Opcode(i) + 256 * n }

  lemma {:induction false} WriteWidthsAppend(enums: seq<EnumMap>, operands: seq<Operand>, o: Operand)
    ensures var (all, front, last) := (WriteWidths(enums, operands + [o]), WriteWidths(enums, operands), WriteWidth(enums, o));
      all == if front.None? || last.None? then None else Some(front.value + [last.value])
  {
    if operands == [] {
      assert operands + [o] == [o] && [o][1..] == [];
      var last := WriteWidth(enums, o);
      if last.Some? { assert [last.value] + [] == [] + [last.value]; }
    } else {
      WriteWidthsAppend(enums, operands[1..], o);
      assert (operands + [o])[1..] == operands[1..] + [o];
      var first, front, last := WriteWidth(enums, operands[0]), WriteWidths(enums, operands[1..]), WriteWidth(enums, o);
      if first.Some? && front.Some? && last.Some? {
        assert [first.value] + (front.value + [last.value]) == [first.value] + front.value + [last.value];
      }
    }
  }

  lemma {:induction false} WriteWidthsPrefix(enums: seq<EnumMap>, operands: seq<Operand>, k: nat)
    requires k <= |operands|
    ensures WriteWidths(enums, operands[..k]).None? ==> WriteWidths(enums, operands).None?
  {
    if k > 0 {
      WriteWidthsPrefix(enums, operands[1..], k - 1);
      assert operands[..k][1..] == operands[1..][..k - 1];
    }
  }

  lemma {:induction false} SumAppend(widths: seq<nat>, w: nat)
    ensures Sum(widths + [w]) == Sum(widths) + w
  {
    if widths == [] {
      assert widths + [w] == [w] && [w][1..] == [];
    } else {
      SumAppend(widths[1..], w);
      assert (widths + [w])[1..] == widths[1..] + [w];
    }
  }

  /** Running an emitter: the opcode word, then every value in its width. */
  function WriteAll(widths: seq<nat>, values: seq<nat>): (s: seq<byte>)
    requires |values| == |widths|
    ensures |s| == Sum(widths)
  {
    if widths == [] then [] else LE(values[0], widths[0]) + WriteAll(widths[1..], values[1..])
  }

  function RunEmitter(e: Emitter, values: seq<nat>): (s: seq<byte>)
    requires |values| == |e.widths|
    ensures |s| == 2 + Sum(e.widths)
  {
    LE(e.verb, 2) + WriteAll(e.widths, values)
  }

  // ---------- the generated size table ----------

  /** The size table looks at types only: a scalar type gives its size, any other type that of a memory operand. */
  function TableSize(enums: seq<EnumMap>, o: Operand): nat
  {
    match ScalarSize(ReplacedType(enums, o.typeName))
    case Some(size) => size
    case None => MEMOP_SIZE
  }

  function FixedSize(enums: seq<EnumMap>, operands: seq<Operand>): nat
  {
    if operands == [] then 2 else TableSize(enums, operands[0]) + FixedSize(enums, operands[1..])
  }

  /** A memory operand whose size the table gets wrong. */
  predicate IsOddMemop(enums: seq<EnumMap>, o: Operand)
  {
    o.memop && ScalarSize(ReplacedType(enums, o.typeName)) !in {None, Some(MEMOP_SIZE)}
  }

  /**
    The size table tells what the emitter writes whenever no memory operand is declared with a
    scalar type of another size.
   */
  lemma {:induction false} SizeTableAgrees(enums: seq<EnumMap>, operands: seq<Operand>)
    requires WriteWidths(enums, operands).Some?
    requires forall o :: o in operands ==> !IsOddMemop(enums, o)
    ensures FixedSize(enums, operands) == 2 + Sum(WriteWidths(enums, operands).value)
  {
    if operands != [] {
      assert operands[0] in operands;
      SizeTableAgrees(enums, operands[1..]);
    }
  }

  /** How many memory operands are declared with a scalar type of `size` bytes. */
  function Memops(enums: seq<EnumMap>, operands: seq<Operand>, size: nat): nat
  {
    if operands == [] then 0
    else
      (if operands[0].memop && ScalarSize(ReplacedType(enums, operands[0].typeName)) == Some(size) then 1 else 0)
      + Memops(enums, operands[1..], size)
  }

  /** By how much the size table is off. */
  lemma {:induction false} SizeTableError(enums: seq<EnumMap>, operands: seq<Operand>)
    requires WriteWidths(enums, operands).Some?
    ensures FixedSize(enums, operands) + 3 * Memops(enums, operands, 1) + 2 * Memops(enums, operands, 2)
      == 2 + Sum(WriteWidths(enums, operands).value) + 4 * Memops(enums, operands, 8)
  {
    if operands != [] {
      SizeTableError(enums, operands[1..]);
      var o := operands[0];
      assert ScalarSize(ReplacedType(enums, o.typeName)) in {None, Some(1), Some(2), Some(4), Some(8)};
    }
  }

  /** The exact condition: what memory operands of small and of large scalar types get wrong cancels out. */
  lemma SizeTableAgreesIff(enums: seq<EnumMap>, operands: seq<Operand>)
    requires WriteWidths(enums, operands).Some?
    ensures FixedSize(enums, operands) == 2 + Sum(WriteWidths(enums, operands).value)
      <==> 4 * Memops(enums, operands, 8) == 2 * Memops(enums, operands, 2) + 3 * Memops(enums, operands, 1)
  {
    SizeTableError(enums, operands);
  }

  /** An instruction with one memory operand of type u8: it takes six bytes, and the table says three. */
  lemma SizeTableIsWrong()
    ensures var operands := [Operand(U8, true, false)];
      FixedSize([], operands) == 3 && WriteWidths([], operands) == Some([MEMOP_SIZE]) && 2 + Sum([MEMOP_SIZE]) == 6
  {
    var operands := [Operand(U8, true, false)];
    var none := operands[1..];
    assert none == [];
    assert FixedSize([], operands) == 1 + FixedSize([], none);
    assert WriteWidths([], none) == Some([]) && [MEMOP_SIZE] + [] == [MEMOP_SIZE];
    assert [MEMOP_SIZE][1..] == [];
  }

  // ---------- the generated dispatcher ----------

  /** How the dispatcher reads one operand. */
  datatype ReadStep =
    | ReadPlain(width: nat)
    | ReadEnum(width: nat, signed: bool, members: seq<string>)
    | ReadMemory(nullable: bool)

  /** An enumeration stored as a floating-point number makes C++ that does not compile. */
  function StepOf(enums: seq<EnumMap>, o: Operand): Option<ReadStep>
  {
    if o.memop then
      if o.typeName == AnyType then Some(ReadMemory(false))
      else if HasCppType(o.typeName) then Some(ReadMemory(o.nullable))
      else None
    else
      match FindEnum(enums, o.typeName)
      case Some(e) =>
        if IsFloat(e.underlying) then None
        else (match CppSize(e.underlying) case Some(w) => Some(ReadEnum(w, IsSigned(e.underlying), e.members)) case None => None)
      case None => (match CppSize(o.typeName) case Some(w) => Some(ReadPlain(w)) case None => None)
  }

  function StepsOf(enums: seq<EnumMap>, operands: seq<Operand>): Option<seq<ReadStep>>
  {
    if operands == [] then Some([])
    else
      var first, rest := StepOf(enums, operands[0]), StepsOf(enums, operands[1..]);
      if first.None? || rest.None? then None else Some([first.value] + rest.value)
  }

  /** What an executor is called with. */
  datatype Argument = Plain(value: nat) | EnumValue(member: string) | Memory(id: nat) | NullMemory

  datatype Execution = Execution(index: nat, arguments: seq<Argument>)

  /** A reader over the buffers of a command stream; it stands in the first of them. */
  datatype Reader = Reader(buffers: seq<seq<byte>>, pos: nat)

  function Extract(r: Reader, width: nat): (x: Option<(nat, Reader)>)
    ensures x.Some? ==> x.value.1.buffers == r.buffers != [] && x.value.1.pos == r.pos + width <= |r.buffers[0]|
  {
    if r.buffers == [] || r.pos + width > |r.buffers[0]| then None
    else Some((FromLE(r.buffers[0][r.pos..r.pos + width]), Reader(r.buffers, r.pos + width)))
  }

  /** The value that `v` stands for in a signed type of `width` bytes. */
  function AsSigned(v: nat, width: nat): int
  {
    if v < Pow256(width) / 2 then v else v - Pow256(width)
  }

  function ReadOne(step: ReadStep, r: Reader): (x: Option<(Argument, Reader)>)
    ensures x.Some? ==> x.value.1.buffers == r.buffers && r.pos <= x.value.1.pos
  {
    match step
    case ReadPlain(w) =>
      (match Extract(r, w) case None => None case Some((v, r')) => Some((Plain(v), r')))
    case ReadEnum(w, signed, members) =>
      (match Extract(r, w) case None => None
       case Some((v, r')) =>
         var x := if signed then AsSigned(v, w) else v;
         if x < 0 || x >= |members| then None else Some((EnumValue(members[x]), r')))
    case ReadMemory(nullable) =>
      (match Extract(r, MEMOP_SIZE) case None => None
       case Some((v, r')) => if nullable && v == 0 then Some((NullMemory, r')) else Some((Memory(v), r')))
  }

  function ReadAll(steps: seq<ReadStep>, r: Reader): (x: Option<(seq<Argument>, Reader)>)
    ensures x.Some? ==> x.value.1.buffers == r.buffers && r.pos <= x.value.1.pos
  {
    if steps == [] then Some(([], r))
    else
      match ReadOne(steps[0], r)
      case None => None
      case Some((a, r')) =>
        match ReadAll(steps[1..], r')
        case None => None
        case Some((rest, r'')) => Some(([a] + rest, r''))
  }

  /** The run ends at the pool end, or stops at a fault: data missing or an enumeration value out of range. */
  datatype Outcome = Finished(trace: seq<Execution>) | Fault(trace: seq<Execution>)

  function Prepend(trace: seq<Execution>, rest: Outcome): Outcome
  {
    rest.(trace := trace + rest.trace)
  }

  function Remaining(r: Reader): nat
  {
    if r.buffers == [] || r.pos > |r.buffers[0]| then 0 else |r.buffers[0]| - r.pos
  }

  /** The case label a verb is compared with: instruction index, if there is one. */
  function IndexOf(table: Table, verb: nat): Option<nat>
  {
    var opcode := verb % 256;
    if 0 < opcode <= |table.instructions| then Some(opcode - 1) else None
  }

  /** The generated loop. A verb that matches no case is skipped. */
  function Dispatch(table: Table, r: Reader): Outcome
    decreases |r.buffers|, Remaining(r)
  {
    match Extract(r, 2)
    case None => Fault([])
    case Some((verb, r1)) =>
      if IndexOf(table, verb) == Some(table.poolEnd) then Finished([])
      else if IndexOf(table, verb) == Some(table.switchNext) then Dispatch(table, Reader(r.buffers[1..], 0))
      else if IndexOf(table, verb).None? then Dispatch(table, r1)
      else
        var i := IndexOf(table, verb).value;
        match StepsOf(table.enums, table.instructions[i].operands)
        case None => Fault([])
        case Some(steps) =>
          match ReadAll(steps, r1)
          case None => Fault([])
          case Some((arguments, r2)) => Prepend([Execution(i, arguments)], Dispatch(table, r2))
  }

  /** The same as the loop it is generated as. */
  method RunDispatch(table: Table, reader: Reader) returns (outcome: Outcome)
    ensures outcome == Dispatch(table, reader)
  {
    var r := reader;
    var trace: seq<Execution> := [];
    while true
      invariant Dispatch(table, reader) == Prepend(trace, Dispatch(table, r))
      decreases |r.buffers|, Remaining(r)
    {
      var extracted := Extract(r, 2);
      if extracted.None? { return Fault(trace); }
      var (verb, r1) := extracted.value;
      var index := IndexOf(table, verb);
      if index == Some(table.poolEnd) { return Finished(trace); }
      if index == Some(table.switchNext) {
        r := Reader(r.buffers[1..], 0);
        continue;
      }
      if index.None? {
        r := r1;
        continue;
      }
      var steps := StepsOf(table.enums, table.instructions[index.value].operands);
      if steps.None? { return Fault(trace); }
      var read := ReadAll(steps.value, r1);
      if read.None? { return Fault(trace); }
      PrependTwice(trace, [Execution(index.value, read.value.0)], Dispatch(table, read.value.1));
      trace := trace + [Execution(index.value, read.value.0)];
      r := read.value.1;
    }
  }

  lemma PrependTwice(a: seq<Execution>, b: seq<Execution>, rest: Outcome)
    ensures Prepend(a, Prepend(b, rest)) == Prepend(a + b, rest)
  {
    assert a + (b + rest.trace) == a + b + rest.trace;
  }

  lemma PrependNothing(rest: Outcome)
    ensures Prepend([], rest) == rest
  {
    assert [] + rest.trace == rest.trace;
  }

  // ---------- programs ----------

  /** An instruction with the values of its operands, as handed to the emitter. */
  datatype Invocation = Invocation(index: nat, values: seq<nat>)

  /** The operand lists the generator accepts, for both languages. */
  predicate Accepts(table: Table, i: nat)
    requires i < |table.instructions|
  {
    && WriteWidths(table.enums, table.instructions[i].operands).Some?
    && StepsOf(table.enums, table.instructions[i].operands).Some?
  }

  /** A value fits its width; an enumeration value is one of the generated constants. */
  predicate ValueFits(enums: seq<EnumMap>, o: Operand, v: nat)
  {
    && WriteWidth(enums, o).Some?
    && v < Pow256(WriteWidth(enums, o).value)
    && (!o.memop && FindEnum(enums, o.typeName).Some? ==> v < |FindEnum(enums, o.typeName).value.members|)
  }

  /**
    The value of an enumeration is not taken for a negative number: in a signed type of `w` bytes the
    index has to be below 2^(8w-1).
   */
  predicate IsReadable(enums: seq<EnumMap>, o: Operand, v: nat)
  {
    o.memop ||
      match FindEnum(enums, o.typeName)
      case None => true
      case Some(e) =>
        match CppSize(e.underlying)
        case None => true
        case Some(w) => IsSigned(e.underlying) ==> v < Pow256(w) / 2
  }

  ghost predicate AllReadable(enums: seq<EnumMap>, operands: seq<Operand>, values: seq<nat>)
    requires |values| == |operands|
  {
    forall k :: 0 <= k < |operands| ==> IsReadable(enums, operands[k], values[k])
  }

  ghost predicate ValidInvocation(table: Table, inv: Invocation)
  {
    && inv.index < |table.instructions| && Opcode(inv.index) < 256
    && inv.index != table.poolEnd && inv.index != table.switchNext
    && Accepts(table, inv.index)
    && var operands := table.instructions[inv.index].operands;
       |inv.values| == |operands| < 256 && ValuesFit(table.enums, operands, inv.values)
  }

  ghost predicate ValuesFit(enums: seq<EnumMap>, operands: seq<Operand>, values: seq<nat>)
    requires |values| == |operands|
  {
    forall k :: 0 <= k < |operands| ==> ValueFits(enums, operands[k], values[k])
  }

  ghost predicate InvocationReadable(table: Table, inv: Invocation)
    requires ValidInvocation(table, inv)
  {
    AllReadable(table.enums, table.instructions[inv.index].operands, inv.values)
  }

  ghost predicate ChunkReadable(table: Table, invs: seq<Invocation>)
    requires ChunkValid(table, invs)
  {
    forall k :: 0 <= k < |invs| ==> InvocationReadable(table, invs[k])
  }

  ghost predicate ChunkValid(table: Table, invs: seq<Invocation>)
  {
    forall k :: 0 <= k < |invs| ==> ValidInvocation(table, invs[k])
  }

  function EmitterOf(table: Table, i: nat): Emitter
    requires i < |table.instructions| && Accepts(table, i)
  {
    var widths := WriteWidths(table.enums, table.instructions[i].operands).value;
    Emitter(2 + Sum(widths), Verb(i, |table.instructions[i].operands|), widths)
  }

  lemma {:induction false} WidthsHaveLength(enums: seq<EnumMap>, operands: seq<Operand>)
    requires WriteWidths(enums, operands).Some?
    ensures |WriteWidths(enums, operands).value| == |operands|
  {
    if operands != [] { WidthsHaveLength(enums, operands[1..]); }
  }

  /** What the emitter writes: exactly as many bytes as it has asked the writer to have room for. */
  ghost function Emit(table: Table, inv: Invocation): (s: seq<byte>)
    requires ValidInvocation(table, inv)
    ensures |s| == EmitterOf(table, inv.index).requiredSize
  {
    WidthsHaveLength(table.enums, table.instructions[inv.index].operands);
    RunEmitter(EmitterOf(table, inv.index), inv.values)
  }

  ghost function EmitAll(table: Table, invs: seq<Invocation>): seq<byte>
    requires ChunkValid(table, invs)
  {
    if invs == [] then [] else Emit(table, invs[0]) + EmitAll(table, invs[1..])
  }

  /** What the instruction means: the argument each executor parameter has to get. */
  function Meaning(enums: seq<EnumMap>, o: Operand, v: nat): Argument
  {
    if o.memop then
      if o.nullable && o.typeName != AnyType && v == 0 then NullMemory else Memory(v)
    else
      match FindEnum(enums, o.typeName)
      case Some(e) => if v < |e.members| then EnumValue(e.members[v]) else Plain(v)
      case None => Plain(v)
  }

  function Meanings(enums: seq<EnumMap>, operands: seq<Operand>, values: seq<nat>): seq<Argument>
    requires |operands| == |values|
  {
    if operands == [] then [] else [Meaning(enums, operands[0], values[0])] + Meanings(enums, operands[1..], values[1..])
  }

  ghost function MeaningOf(table: Table, inv: Invocation): Execution
    requires ValidInvocation(table, inv)
  {
    Execution(inv.index, Meanings(table.enums, table.instructions[inv.index].operands, inv.values))
  }

  ghost function MeaningOfAll(table: Table, invs: seq<Invocation>): seq<Execution>
    requires ChunkValid(table, invs)
  {
    if invs == [] then [] else [MeaningOf(table, invs[0])] + MeaningOfAll(table, invs[1..])
  }

  // ---------- replay ----------

  /** The bytes from the reader's position on. */
  ghost predicate Reads(r: Reader, bytes: seq<byte>)
  {
    r.buffers != [] && r.pos <= |r.buffers[0]| && r.buffers[0][r.pos..] == bytes
  }

  lemma ExtractLE(r: Reader, v: nat, width: nat, tail: seq<byte>)
    requires Reads(r, LE(v, width) + tail) && v < Pow256(width)
    ensures Extract(r, width) == Some((v, Reader(r.buffers, r.pos + width)))
    ensures Reads(Reader(r.buffers, r.pos + width), tail)
  {
    var rest := r.buffers[0][r.pos..];
    assert r.buffers[0][r.pos..r.pos + width] == rest[..width] == LE(v, width);
    assert r.buffers[0][r.pos + width..] == rest[width..] == tail;
    FromLEOfLE(v, width);
  }

  /**
    The emitter's width for an operand is the one the dispatcher reads. Reading gives the meaning,
    unless an enumeration value is taken for a negative number: then the translator throws.
   */
  lemma ReadOneReplays(enums: seq<EnumMap>, o: Operand, v: nat, r: Reader, tail: seq<byte>)
    requires ValueFits(enums, o, v) && StepOf(enums, o).Some?
    requires Reads(r, LE(v, WriteWidth(enums, o).value) + tail)
    ensures ReadOne(StepOf(enums, o).value, r) == if IsReadable(enums, o, v)
      then Some((Meaning(enums, o, v), Reader(r.buffers, r.pos + WriteWidth(enums, o).value))) else None
    ensures Reads(Reader(r.buffers, r.pos + WriteWidth(enums, o).value), tail)
  {
    ExtractLE(r, v, WriteWidth(enums, o).value, tail);
  }

  lemma Regrouped(r: Reader, a: seq<byte>, b: seq<byte>, c: seq<byte>)
    requires Reads(r, a + b + c)
    ensures Reads(r, a + (b + c))
  {
    assert a + b + c == a + (b + c);
  }

  lemma ReadFirstReplays(enums: seq<EnumMap>, o: Operand, widths: seq<nat>, values: seq<nat>, r: Reader, tail: seq<byte>)
    requires widths != [] && |values| == |widths|
    requires ValueFits(enums, o, values[0]) && WriteWidth(enums, o) == Some(widths[0]) && StepOf(enums, o).Some?
    requires Reads(r, WriteAll(widths, values) + tail)
    ensures var r1 := Reader(r.buffers, r.pos + widths[0]);
      && ReadOne(StepOf(enums, o).value, r) ==
        (if IsReadable(enums, o, values[0]) then Some((Meaning(enums, o, values[0]), r1)) else None)
      && Reads(r1, WriteAll(widths[1..], values[1..]) + tail)
  {
    var rest := WriteAll(widths[1..], values[1..]);
    Regrouped(r, LE(values[0], widths[0]), rest, tail);
    ReadOneReplays(enums, o, values[0], r, rest + tail);
  }

  /** A null operand is the value zero of a nullable memory operand, and nothing else. */
  lemma NullIff(enums: seq<EnumMap>, o: Operand, v: nat)
    ensures Meaning(enums, o, v) == NullMemory <==> o.memop && o.nullable && o.typeName != AnyType && v == 0
  {
  }

  /** A translator returns the member of that number, and throws for all values that have none and for those it takes for negative. */
  lemma EnumReadIff(w: nat, signed: bool, members: seq<string>, v: nat, r: Reader, tail: seq<byte>)
    requires Reads(r, LE(v, w) + tail) && v < Pow256(w)
    ensures var x := ReadOne(ReadEnum(w, signed, members), r);
      && (x.Some? <==> v < |members| && (signed ==> v < Pow256(w) / 2))
      && (x.Some? ==> x.value.0 == EnumValue(members[v]))
  {
    ExtractLE(r, v, w, tail);
  }

  /** Where a buffer ends before an opcode word is complete, the run stops. */
  lemma ShortBufferFaults(table: Table, r: Reader)
    requires r.buffers == [] || r.pos + 2 > |r.buffers[0]|
    ensures Dispatch(table, r) == Fault([])
  {
  }

  /** Widths, steps and values that belong to the operands, one by one. */
  ghost predicate Matched(enums: seq<EnumMap>, operands: seq<Operand>, widths: seq<nat>, steps: seq<ReadStep>, values: seq<nat>)
  {
    && |operands| == |widths| == |steps| == |values|
    && forall k :: 0 <= k < |operands| ==>
      && WriteWidth(enums, operands[k]) == Some(widths[k])
      && StepOf(enums, operands[k]) == Some(steps[k])
      && ValueFits(enums, operands[k], values[k])
  }

  lemma {:induction false} OperandsMatched(enums: seq<EnumMap>, operands: seq<Operand>, values: seq<nat>)
    requires WriteWidths(enums, operands).Some? && StepsOf(enums, operands).Some?
    requires |values| == |operands| && ValuesFit(enums, operands, values)
    ensures Matched(enums, operands, WriteWidths(enums, operands).value, StepsOf(enums, operands).value, values)
    decreases |operands|
  {
    if operands != [] { OperandsMatched(enums, operands[1..], values[1..]); }
  }

  lemma FirstMatched(enums: seq<EnumMap>, operands: seq<Operand>, widths: seq<nat>, steps: seq<ReadStep>, values: seq<nat>)
    requires Matched(enums, operands, widths, steps, values) && operands != []
    ensures ValueFits(enums, operands[0], values[0])
    ensures WriteWidth(enums, operands[0]) == Some(widths[0]) && StepOf(enums, operands[0]) == Some(steps[0])
    ensures Matched(enums, operands[1..], widths[1..], steps[1..], values[1..])
  {
    hide StepOf, WriteWidth, ValueFits;
  }

  lemma ReadAllStep(steps: seq<ReadStep>, r: Reader, a: Argument, r1: Reader, rest: seq<Argument>, r2: Reader)
    requires steps != [] && ReadOne(steps[0], r) == Some((a, r1)) && ReadAll(steps[1..], r1) == Some((rest, r2))
    ensures ReadAll(steps, r) == Some(([a] + rest, r2))
  {
    hide ReadOne;
  }

  lemma ReadableParts(enums: seq<EnumMap>, operands: seq<Operand>, values: seq<nat>)
    requires |values| == |operands| && operands != []
    ensures AllReadable(enums, operands, values) <==>
      IsReadable(enums, operands[0], values[0]) && AllReadable(enums, operands[1..], values[1..])
  {
    hide IsReadable;
    assert forall k :: 0 < k < |operands| ==> operands[k] == operands[1..][k - 1] && values[k] == values[1..][k - 1];
    if AllReadable(enums, operands[1..], values[1..]) && IsReadable(enums, operands[0], values[0]) {
      forall k | 0 <= k < |operands| ensures IsReadable(enums, operands[k], values[k]) {
        if k > 0 { assert IsReadable(enums, operands[1..][k - 1], values[1..][k - 1]); }
      }
    }
  }

  /** Reading the operands gives their meanings if all of them are readable, and throws otherwise. */
  lemma {:induction false} ReadAllReplays(enums: seq<EnumMap>, operands: seq<Operand>, widths: seq<nat>, steps: seq<ReadStep>,
      values: seq<nat>, r: Reader, tail: seq<byte>)
    requires Matched(enums, operands, widths, steps, values)
    requires Reads(r, WriteAll(widths, values) + tail)
    ensures ReadAll(steps, r) == if AllReadable(enums, operands, values)
      then Some((Meanings(enums, operands, values), Reader(r.buffers, r.pos + Sum(widths)))) else None
    ensures Reads(Reader(r.buffers, r.pos + Sum(widths)), tail)
    decreases |operands|
  {
    hide StepOf, WriteWidth, Meaning, ReadOne, ValueFits, Reads, IsReadable;
    assert |operands| == |widths| == |steps| == |values|;
    if operands == [] {
      assert [] + tail == tail;
    } else {
      FirstMatched(enums, operands, widths, steps, values);
      hide Matched, WriteAll, AllReadable;
      var r1, r2 := Reader(r.buffers, r.pos + widths[0]), Reader(r.buffers, r.pos + Sum(widths));
      ReadableParts(enums, operands, values);
      ReadFirstReplays(enums, operands[0], widths, values, r, tail);
      ReadAllReplays(enums, operands[1..], widths[1..], steps[1..], values[1..], r1, tail);
      if AllReadable(enums, operands, values) {
        ReadAllStep(steps, r, Meaning(enums, operands[0], values[0]), r1, Meanings(enums, operands[1..], values[1..]), r2);
      }
    }
  }

  lemma VerbIsWord(i: nat, n: nat)
    requires Opcode(i) < 256 && n < 256
    ensures Verb(i, n) < Pow256(2) && Verb(i, n) % 256 == Opcode(i)
  {
    assert Pow256(2) == 65536;
  }

  lemma TwoBytes(n: nat)
    ensures LE(n, 2) == [n % 256, n / 256 % 256]
  {
    assert LE(n / 256, 1) == [n / 256 % 256];
  }

  /** The opcode word: instructions are numbered from one, and the second byte tells the number of operands. */
  lemma EmittedStart(table: Table, inv: Invocation)
    requires ValidInvocation(table, inv)
    ensures |Emit(table, inv)| >= 2
    ensures Emit(table, inv)[0] == inv.index + 1 && Emit(table, inv)[1] == |inv.values|
  {
    hide ValuesFit, WriteAll, LE;
    var e := EmitterOf(table, inv.index);
    WidthsHaveLength(table.enums, table.instructions[inv.index].operands);
    VerbIsWord(inv.index, |inv.values|);
    TwoBytes(e.verb);
    assert Emit(table, inv) == LE(e.verb, 2) + WriteAll(e.widths, inv.values);
  }

  /** A word whose first byte is the number of no instruction is skipped. */
  lemma UnknownIsSkipped(table: Table, r: Reader, opcode: byte, count: byte, tail: seq<byte>)
    requires Reads(r, [opcode, count] + tail) && (opcode == 0 || opcode > |table.instructions|)
    requires HasControlOpcodes(table)
    ensures Dispatch(table, r) == Dispatch(table, Reader(r.buffers, r.pos + 2))
  {
    var verb := opcode + 256 * count;
    assert Pow256(2) == 65536 && verb / 256 == count && verb % 256 == opcode;
    TwoBytes(verb);
    ExtractLE(r, verb, 2, tail);
  }

  /** One turn of the generated loop, on an instruction of the table. */
  lemma DispatchStep(table: Table, i: nat, verb: nat, r: Reader, r1: Reader, arguments: seq<Argument>, r2: Reader)
    requires Extract(r, 2) == Some((verb, r1)) && IndexOf(table, verb) == Some(i)
    requires i < |table.instructions| && i != table.poolEnd && i != table.switchNext
    requires StepsOf(table.enums, table.instructions[i].operands).Some?
    requires ReadAll(StepsOf(table.enums, table.instructions[i].operands).value, r1) == Some((arguments, r2))
    ensures Dispatch(table, r) == Prepend([Execution(i, arguments)], Dispatch(table, r2))
  {
    hide Extract, ReadAll, StepsOf, IndexOf, Prepend;
  }

  lemma EmittedSplit(e: Emitter, values: seq<nat>, r: Reader, tail: seq<byte>)
    requires |values| == |e.widths| && Reads(r, RunEmitter(e, values) + tail)
    ensures Reads(r, LE(e.verb, 2) + (WriteAll(e.widths, values) + tail))
  {
    hide Reads, LE, WriteAll;
    Regrouped(r, LE(e.verb, 2), WriteAll(e.widths, values), tail);
  }

  lemma DispatchThrows(table: Table, i: nat, verb: nat, r: Reader, r1: Reader)
    requires Extract(r, 2) == Some((verb, r1)) && IndexOf(table, verb) == Some(i)
    requires i < |table.instructions| && i != table.poolEnd && i != table.switchNext
    requires StepsOf(table.enums, table.instructions[i].operands).Some?
    requires ReadAll(StepsOf(table.enums, table.instructions[i].operands).value, r1) == None
    ensures Dispatch(table, r) == Fault([])
  {
    hide Extract, ReadAll, StepsOf, IndexOf, Prepend;
  }

  /** The emitted bytes are read back as the opcode word and the operands' meanings. */
  lemma EmittedIsRead(enums: seq<EnumMap>, operands: seq<Operand>, e: Emitter, steps: seq<ReadStep>,
      values: seq<nat>, r: Reader, tail: seq<byte>)
    requires |values| == |operands| == |e.widths|
    requires Matched(enums, operands, e.widths, steps, values) && e.verb < Pow256(2)
    requires Reads(r, RunEmitter(e, values) + tail)
    ensures var (r1, r2) := (Reader(r.buffers, r.pos + 2), Reader(r.buffers, r.pos + 2 + Sum(e.widths)));
      && Extract(r, 2) == Some((e.verb, r1)) && Reads(r2, tail)
      && ReadAll(steps, r1) == if AllReadable(enums, operands, values) then Some((Meanings(enums, operands, values), r2)) else None
  {
    hide Matched, Reads, Extract, ReadAll, Meanings, Sum, WriteAll, LE, Pow256, StepOf, WriteWidth, ValueFits, AllReadable, RunEmitter;
    EmittedSplit(e, values, r, tail);
    var writes := WriteAll(e.widths, values);
    ExtractLE(r, e.verb, 2, writes + tail);
    ReadAllReplays(enums, operands, e.widths, steps, values, Reader(r.buffers, r.pos + 2), tail);
  }

  /** What the pieces of the proof need to know about an instruction. */
  lemma InvocationFacts(table: Table, inv: Invocation)
    requires ValidInvocation(table, inv)
    ensures inv.index < |table.instructions| && inv.index != table.poolEnd && inv.index != table.switchNext
    ensures Accepts(table, inv.index) && StepsOf(table.enums, table.instructions[inv.index].operands).Some?
    ensures var (operands, e) := (table.instructions[inv.index].operands, EmitterOf(table, inv.index));
      && |inv.values| == |operands| == |e.widths| && e.verb < Pow256(2) && IndexOf(table, e.verb) == Some(inv.index)
      && Matched(table.enums, operands, e.widths, StepsOf(table.enums, operands).value, inv.values)
      && Emit(table, inv) == RunEmitter(e, inv.values) && |Emit(table, inv)| == 2 + Sum(e.widths)
      && MeaningOf(table, inv) == Execution(inv.index, Meanings(table.enums, operands, inv.values))
      && InvocationReadable(table, inv) == AllReadable(table.enums, operands, inv.values)
  {
    var operands := table.instructions[inv.index].operands;
    OperandsMatched(table.enums, operands, inv.values);
    WidthsHaveLength(table.enums, operands);
    VerbIsWord(inv.index, |operands|);
    hide AllReadable, Meanings, RunEmitter, WriteWidth, StepOf, ValueFits, Matched, ValuesFit;
  }

  /** One instruction is dispatched as what it means, or its translation throws. */
  lemma InvocationReplays(table: Table, inv: Invocation, r: Reader, tail: seq<byte>)
    requires ValidInvocation(table, inv) && Reads(r, Emit(table, inv) + tail)
    ensures var r' := Reader(r.buffers, r.pos + |Emit(table, inv)|);
      && Reads(r', tail)
      && Dispatch(table, r) ==
        if InvocationReadable(table, inv) then Prepend([MeaningOf(table, inv)], Dispatch(table, r')) else Fault([])
  {
    hide ValidInvocation, Matched, Reads, Extract, ReadAll, StepsOf, WriteWidths, Meanings, Sum, RunEmitter, Pow256, Dispatch, Prepend, Verb,
      AllReadable, EmitterOf, IndexOf, Emit, MeaningOf, InvocationReadable;
    InvocationFacts(table, inv);
    var operands := table.instructions[inv.index].operands;
    var e, steps := EmitterOf(table, inv.index), StepsOf(table.enums, operands).value;
    EmittedIsRead(table.enums, operands, e, steps, inv.values, r, tail);
    var r1, r2 := Reader(r.buffers, r.pos + 2), Reader(r.buffers, r.pos + 2 + Sum(e.widths));
    if InvocationReadable(table, inv) {
      DispatchStep(table, inv.index, e.verb, r, r1, Meanings(table.enums, operands, inv.values), r2);
    } else {
      DispatchThrows(table, inv.index, e.verb, r, r1);
    }
  }

  /** One instruction before others. */
  lemma BufferStep(table: Table, inv: Invocation, r: Reader, rest: seq<byte>, tail: seq<byte>)
    requires ValidInvocation(table, inv) && Reads(r, Emit(table, inv) + rest + tail)
    ensures var r1 := Reader(r.buffers, r.pos + |Emit(table, inv)|);
      && Reads(r1, rest + tail)
      && Dispatch(table, r) ==
        if InvocationReadable(table, inv) then Prepend([MeaningOf(table, inv)], Dispatch(table, r1)) else Fault([])
  {
    hide Emit, Reads, Dispatch, Prepend, MeaningOf, ValidInvocation, EmitterOf, InvocationReadable;
    Regrouped(r, Emit(table, inv), rest, tail);
    InvocationReplays(table, inv, r, rest + tail);
  }

  lemma ChunkParts(table: Table, invs: seq<Invocation>)
    requires invs != [] && ChunkValid(table, invs)
    ensures ValidInvocation(table, invs[0]) && ChunkValid(table, invs[1..])
    ensures ChunkReadable(table, invs) <==> InvocationReadable(table, invs[0]) && ChunkReadable(table, invs[1..])
  {
    hide ValidInvocation, InvocationReadable;
    assert forall k :: 0 < k < |invs| ==> invs[k] == invs[1..][k - 1];
    if InvocationReadable(table, invs[0]) && ChunkReadable(table, invs[1..]) {
      forall k | 0 <= k < |invs| ensures InvocationReadable(table, invs[k]) {
        if k > 0 { assert InvocationReadable(table, invs[1..][k - 1]); }
      }
    }
  }

  /** The instructions of one buffer are replayed if all of them are readable; otherwise the run stops in it. */
  lemma {:induction false} BufferReplays(table: Table, invs: seq<Invocation>, r: Reader, tail: seq<byte>)
    requires ChunkValid(table, invs)
    requires Reads(r, EmitAll(table, invs) + tail)
    ensures var r' := Reader(r.buffers, r.pos + |EmitAll(table, invs)|);
      && Reads(r', tail)
      && (ChunkReadable(table, invs) ==> Dispatch(table, r) == Prepend(MeaningOfAll(table, invs), Dispatch(table, r')))
      && (!ChunkReadable(table, invs) ==> Dispatch(table, r).Fault?)
    decreases |invs|
  {
    hide ValidInvocation, EmitterOf, Emit, Reads, Dispatch, MeaningOf, InvocationReadable;
    if invs == [] {
      assert [] + tail == tail;
      PrependNothing(Dispatch(table, r));
    } else {
      hide ChunkValid, ChunkReadable;
      var inv, rest := invs[0], invs[1..];
      ChunkParts(table, invs);
      BufferStep(table, inv, r, EmitAll(table, rest), tail);
      var r1 := Reader(r.buffers, r.pos + |Emit(table, inv)|);
      BufferReplays(table, rest, r1, tail);
      var r2 := Reader(r.buffers, r1.pos + |EmitAll(table, rest)|);
      assert r2.pos == r.pos + |EmitAll(table, invs)|;
      PrependTwice([MeaningOf(table, inv)], MeaningOfAll(table, rest), Dispatch(table, r2));
    }
  }

  /** A command stream: each buffer ends with the switch to the next, the last one with the pool end. */
  ghost predicate IsStream(table: Table, buffers: seq<seq<byte>>, chunks: seq<seq<Invocation>>)
    requires AllValid(table, chunks)
  {
    && |buffers| == |chunks| > 0
    && forall c :: 0 <= c < |chunks| ==>
      EmitAll(table, chunks[c]) + LE(Verb(if c == |chunks| - 1 then table.poolEnd else table.switchNext, 0), 2) <= buffers[c]
  }

  ghost predicate AllValid(table: Table, chunks: seq<seq<Invocation>>)
  {
    forall c :: 0 <= c < |chunks| ==> ChunkValid(table, chunks[c])
  }

  ghost function Trace(table: Table, chunks: seq<seq<Invocation>>): seq<Execution>
    requires AllValid(table, chunks)
  {
    if chunks == [] then [] else MeaningOfAll(table, chunks[0]) + Trace(table, chunks[1..])
  }

  ghost predicate HasControlOpcodes(table: Table)
  {
    && table.poolEnd < |table.instructions| && table.switchNext < |table.instructions|
    && table.poolEnd != table.switchNext && Opcode(table.poolEnd) < 256 && Opcode(table.switchNext) < 256
  }

  lemma StreamTail(table: Table, buffers: seq<seq<byte>>, chunks: seq<seq<Invocation>>)
    requires AllValid(table, chunks) && IsStream(table, buffers, chunks) && |chunks| > 1
    ensures AllValid(table, chunks[1..]) && IsStream(table, buffers[1..], chunks[1..])
  {
    forall c | 0 <= c < |chunks| - 1
      ensures EmitAll(table, chunks[1..][c]) + LE(Verb(if c == |chunks| - 2 then table.poolEnd else table.switchNext, 0), 2) <= buffers[1..][c]
    {
      assert chunks[1..][c] == chunks[c + 1] && buffers[1..][c] == buffers[c + 1];
    }
  }

  ghost predicate StreamReadable(table: Table, chunks: seq<seq<Invocation>>)
    requires AllValid(table, chunks)
  {
    forall c :: 0 <= c < |chunks| ==> ChunkReadable(table, chunks[c])
  }

  lemma StreamReadableParts(table: Table, chunks: seq<seq<Invocation>>)
    requires AllValid(table, chunks) && chunks != []
    ensures AllValid(table, chunks[1..])
    ensures StreamReadable(table, chunks) <==> ChunkReadable(table, chunks[0]) && StreamReadable(table, chunks[1..])
  {
    hide ChunkValid, ChunkReadable;
    assert forall c :: 0 < c < |chunks| ==> chunks[c] == chunks[1..][c - 1];
    if ChunkReadable(table, chunks[0]) && StreamReadable(table, chunks[1..]) {
      forall c | 0 <= c < |chunks| ensures ChunkReadable(table, chunks[c]) {
        if c > 0 { assert ChunkReadable(table, chunks[1..][c - 1]); }
      }
    }
  }

  /**
    The agreement of the generated programs: whatever the table, dispatching what the emitters
    wrote replays the same instructions with the same operands if and only if no value of an
    enumeration stored in a signed type is too large for it; otherwise a translator throws. The
    stream may be cut between instructions into any number of buffers, with anything after their
    last word.
   */
  lemma {:induction false} DispatchReplays(table: Table, buffers: seq<seq<byte>>, chunks: seq<seq<Invocation>>)
    requires HasControlOpcodes(table) && AllValid(table, chunks) && IsStream(table, buffers, chunks)
    ensures Dispatch(table, Reader(buffers, 0)) == Finished(Trace(table, chunks)) <==> StreamReadable(table, chunks)
    ensures !StreamReadable(table, chunks) ==> Dispatch(table, Reader(buffers, 0)).Fault?
    decreases |chunks|
  {
    hide ChunkReadable, Dispatch, EmitAll, ChunkValid;
    var control := if |chunks| == 1 then table.poolEnd else table.switchNext;
    FirstBufferReplays(table, buffers, chunks[0], control);
    StreamReadableParts(table, chunks);
    if |chunks| == 1 {
      assert chunks[1..] == [];
    } else {
      StreamTail(table, buffers, chunks);
      DispatchReplays(table, buffers[1..], chunks[1..]);
    }
  }

  lemma FirstBufferReplays(table: Table, buffers: seq<seq<byte>>, chunk: seq<Invocation>, control: nat)
    requires HasControlOpcodes(table) && ChunkValid(table, chunk)
    requires buffers != [] && (control == table.poolEnd || control == table.switchNext)
    requires EmitAll(table, chunk) + LE(Verb(control, 0), 2) <= buffers[0]
    ensures ChunkReadable(table, chunk) ==>
      (var next := if control == table.poolEnd then Finished([]) else Dispatch(table, Reader(buffers[1..], 0));
       Dispatch(table, Reader(buffers, 0)) == Prepend(MeaningOfAll(table, chunk), next))
    ensures !ChunkReadable(table, chunk) ==> Dispatch(table, Reader(buffers, 0)).Fault?
  {
    hide Emit, EmitAll, Reads, Dispatch, MeaningOfAll, ChunkValid, ChunkReadable, LE, HasControlOpcodes;
    var word, body := LE(Verb(control, 0), 2), EmitAll(table, chunk);
    var padding := buffers[0][|body + word|..];
    BufferSplit(buffers, body, word, padding);
    BufferReplays(table, chunk, Reader(buffers, 0), word + padding);
    ControlWord(table, Reader(buffers, |body|), control, padding);
  }

  lemma BufferSplit(buffers: seq<seq<byte>>, body: seq<byte>, word: seq<byte>, padding: seq<byte>)
    requires buffers != [] && body + word <= buffers[0] && padding == buffers[0][|body + word|..]
    ensures Reads(Reader(buffers, 0), body + (word + padding))
  {
    assert buffers[0][0..] == buffers[0] == body + word + padding == body + (word + padding);
  }

  lemma ControlWord(table: Table, r: Reader, control: nat, padding: seq<byte>)
    requires HasControlOpcodes(table) && (control == table.poolEnd || control == table.switchNext)
    requires Reads(r, LE(Verb(control, 0), 2) + padding)
    ensures Dispatch(table, r) == if control == table.poolEnd then Finished([]) else Dispatch(table, Reader(r.buffers[1..], 0))
  {
    VerbIsWord(control, 0);
    ExtractLE(r, Verb(control, 0), 2, padding);
    assert IndexOf(table, Verb(control, 0)) == Some(control);
  }

  // ---------- an enumeration stored in a signed type ----------

  const MANY := seq(200, _ => "member")
  const SIGNED_ENUM := EnumMap(OtherType("e"), I8, MANY)

  /** Three instructions: one with an operand of that enumeration, and the two control instructions. */
  const SIGNED_TABLE := Table(
    [Instruction("set", [Operand(OtherType("e"), false, false)]), Instruction("end", []), Instruction("next", [])],
    [SIGNED_ENUM], 1, 2)

  /** Member 150 of 200 in a signed byte: the emitter takes it, and dispatching what it wrote stops. */
  lemma LargeMemberThrows() returns (buffers: seq<seq<byte>>)
    ensures AllValid(SIGNED_TABLE, [[Invocation(0, [150])]]) && IsStream(SIGNED_TABLE, buffers, [[Invocation(0, [150])]])
    ensures Dispatch(SIGNED_TABLE, Reader(buffers, 0)).Fault?
  {
    hide ValidInvocation, InvocationReadable, EmitAll, Dispatch;
    var inv := Invocation(0, [150]);
    LargeMemberIsUnreadable();
    var chunks := [[inv]];
    assert chunks[0] == [inv] && [inv][0] == inv;
    buffers := [EmitAll(SIGNED_TABLE, [inv]) + LE(Verb(1, 0), 2)];
    assert !ChunkReadable(SIGNED_TABLE, chunks[0]) && !StreamReadable(SIGNED_TABLE, chunks);
    DispatchReplays(SIGNED_TABLE, buffers, chunks);
  }

  lemma LargeMemberIsUnreadable()
    ensures ValidInvocation(SIGNED_TABLE, Invocation(0, [150]))
    ensures !InvocationReadable(SIGNED_TABLE, Invocation(0, [150]))
  {
    var enums, o := SIGNED_TABLE.enums, Operand(OtherType("e"), false, false);
    var operands := SIGNED_TABLE.instructions[0].operands;
    assert operands == [o] && operands[1..] == [];
    assert FindEnum(enums, o.typeName) == Some(SIGNED_ENUM);
    assert Pow256(1) == 256;
    assert WriteWidth(enums, o) == Some(1) && StepOf(enums, o).Some?;
    assert ValueFits(enums, o, 150) && !IsReadable(enums, operands[0], [150][0]);
  }
}
