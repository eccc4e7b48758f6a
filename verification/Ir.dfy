/** The stack-machine intermediate representation every other module works on. */
module Ir {
  const TWO8 := 0x100
  const TWO31 := 0x8000_0000
  const TWO32 := 0x1_0000_0000
  const TWO59 := 0x0800_0000_0000_0000
  const TWO63 := 0x8000_0000_0000_0000
  const TWO64 := 0x1_0000_0000_0000_0000

  type u8 = x: int | 0 <= x < TWO8
  type u32 = x: int | 0 <= x < TWO32
  type u64 = x: int | 0 <= x < TWO64
  type i32 = x: int | -TWO31 <= x < TWO31

  /** Texts are byte strings, as in the original. */
  type Text = seq<u8>

  datatype Option<+T> = None | Some(value: T)

  // ----- opcodes -----

  /** The byte an opcode is stored as; 1 is PushI32 and 112 is FileWriteStringDynamic. */
  type Opcode = x: int | 1 <= x <= 112 witness 1

  const PUSH_I32: Opcode := 1
  const PUSH_I64: Opcode := 2
  const LOAD_LOCAL: Opcode := 3
  const STORE_LOCAL: Opcode := 4
  const ADDRESS_OF_LOCAL: Opcode := 5
  const LOAD_INDIRECT: Opcode := 6
  const STORE_INDIRECT: Opcode := 7
  const DUP: Opcode := 8
  const POP: Opcode := 9
  const JUMP_IF_ZERO: Opcode := 37
  const JUMP: Opcode := 38
  const RETURN_VOID: Opcode := 39
  const RETURN_I32: Opcode := 40
  const RETURN_I64: Opcode := 41
  const FILE_READ_BYTE: Opcode := 57
  const PUSH_F32: Opcode := 66
  const PUSH_F64: Opcode := 67
  const RETURN_F32: Opcode := 104
  const RETURN_F64: Opcode := 105
  const CALL: Opcode := 107
  const CALL_VOID: Opcode := 108
  const HEAP_REALLOC: Opcode := 111
  const FILE_WRITE_STRING_DYNAMIC: Opcode := 112

  predicate IsCall(op: Opcode) { op == CALL || op == CALL_VOID }

  predicate IsJump(op: Opcode) { op == JUMP || op == JUMP_IF_ZERO }

  predicate IsValueReturn(op: Opcode) {
    op == RETURN_I32 || op == RETURN_I64 || op == RETURN_F32 || op == RETURN_F64
  }

  predicate IsReturn(op: Opcode) { op == RETURN_VOID || IsValueReturn(op) }

  /** The opcodes whose immediate names a slot of the running frame. */
  predicate IsLocalOp(op: Opcode) {
    op == LOAD_LOCAL || op == STORE_LOCAL || op == ADDRESS_OF_LOCAL
  }

  // ----- modules -----

  datatype Instruction = Instruction(op: Opcode, imm: u64, debugId: u32)

  type Body = seq<Instruction>

  datatype LocalDebugSlot = LocalDebugSlot(slotIndex: u32, name: Text, typeName: Text)

  datatype Metadata = Metadata(
    effectMask: u64, capabilityMask: u64, schedulingScope: u32, instrumentationFlags: u32)

  datatype Function = Function(
    name: Text, metadata: Metadata, parameterCount: u32,
    localDebugSlots: seq<LocalDebugSlot>, instructions: Body)

  datatype StructField = StructField(
    name: Text, envelope: Text, offsetBytes: u32, sizeBytes: u32, alignmentBytes: u32,
    paddingKind: u8, category: u8, visibility: u8, isStatic: bool)

  datatype StructLayout = StructLayout(
    name: Text, totalSizeBytes: u32, alignmentBytes: u32, fields: seq<StructField>)

  datatype SourceMapEntry = SourceMapEntry(
    debugId: u32, line: u32, column: u32, provenance: u8, sourceUnit: Text)

  datatype Module = Module(
    schemaVersion: u32, functions: seq<Function>, entryIndex: i32, stringTable: seq<Text>,
    structLayouts: seq<StructLayout>, sourceMap: seq<SourceMapEntry>)

  /** The instruction lists of a module, the part of it that execution reads. */
  function Bodies(functions: seq<Function>): (bodies: seq<Body>)
    ensures |bodies| == |functions|
  {
    seq(|functions|, i requires 0 <= i < |functions| => functions[i].instructions)
  }

  /** The version that is written, and given to modules made anew. */
  const SCHEMA_VERSION: u32 := 23

  predicate HasEntry(m: Module) { 0 <= m.entryIndex < |m.functions| }

  // ----- frames -----

  function Zeros(n: nat): (z: seq<u64>)
    ensures |z| == n && forall i :: 0 <= i < n ==> z[i] == 0
  {
    seq(n, _ => 0)
  }

  /** Unsigned 64-bit addition, which wraps. */
  function Add64(a: u64, b: u64): u64 { if a + b < TWO64 then a + b else a + b - TWO64 }

  /** Slots of a frame: one past the largest slot named, in 64-bit arithmetic. */
  function LocalCount(body: Body): u64 {
    if body == [] then 0
    else
      var rest := LocalCount(body[1..]);
      if IsLocalOp(body[0].op) then
        var here := Add64(body[0].imm, 1);
        if here > rest then here else rest
      else rest
  }

  /** No instruction names slot 2^64 - 1, the one whose frame size wraps to zero. */
  predicate NoTopSlot(body: Body) {
    forall i :: i in body && IsLocalOp(i.op) ==> i.imm < TWO64 - 1
  }
}
