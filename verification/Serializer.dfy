/** The binary form of a module: a nested, length-prefixed, little-endian encoding. */
module Serializer {
  import opened Ir
  import opened Fallibles

  datatype Error =
    | UnsupportedVersion
    | InvalidEntry
    | TooLong
    | TooMany
    | InvalidHeader
    | Truncated
    | UnsupportedOpcode
    | UnsupportedProvenance

  type Result<+T> = Fallible<T, Error>

  /** A value read, and the bytes behind it. */
  datatype Parsed<+T> = Parsed(value: T, rest: Text)

  const SCHEMA_MAGIC: u32 := 0x50534952

  // ----- integers -----

  function Pow256(n: nat): nat { if n == 0 then 1 else 256 * Pow256(n - 1) }

  function LittleEndian(v: nat, width: nat): (b: Text)
    ensures |b| == width
  {
    if width == 0 then [] else [v % 256] + LittleEndian(v / 256, width - 1)
  }

  function FromLittleEndian(b: Text): (v: nat)
    ensures v < Pow256(|b|)
  {
    if b == [] then 0 else b[0] + 256 * FromLittleEndian(b[1..])
  }

  lemma {:induction false} LittleEndianRoundTrip(v: nat, width: nat)
    requires v < Pow256(width)
    ensures FromLittleEndian(LittleEndian(v, width)) == v
  {
    if width > 0 {
      LittleEndianRoundTrip(v / 256, width - 1);
      assert LittleEndian(v, width)[1..] == LittleEndian(v / 256, width - 1);
    }
  }

  lemma {:induction false} Widths()
    ensures Pow256(1) == TWO8 && Pow256(4) == TWO32 && Pow256(8) == TWO64
  {
    assert Pow256(2) == 0x1_0000;
    assert Pow256(3) == 0x100_0000;
    assert Pow256(4) == TWO32;
    assert Pow256(5) == 256 * TWO32;
    assert Pow256(6) == 0x1_0000 * TWO32;
    assert Pow256(7) == 0x100_0000 * TWO32;
  }

  function U32(v: u32): Text { LittleEndian(v, 4) }

  function U64(v: u64): Text { LittleEndian(v, 8) }

  function ReadU8(b: Text): Result<Parsed<u8>> {
    if |b| < 1 then Err(Truncated) else Ok(Parsed(b[0], b[1..]))
  }

  function ReadU32(b: Text): Result<Parsed<u32>> {
    if |b| < 4 then Err(Truncated)
    else
      Widths();
      Ok(Parsed(FromLittleEndian(b[..4]), b[4..]))
  }

  function ReadU64(b: Text): Result<Parsed<u64>> {
    if |b| < 8 then Err(Truncated)
    else
      Widths();
      Ok(Parsed(FromLittleEndian(b[..8]), b[8..]))
  }

  // ----- texts and lists -----

  function EncodeText(t: Text): Result<Text> {
    if |t| >= TWO32 then Err(TooLong) else Ok(U32(|t|) + t)
  }

  function DecodeText(b: Text): Result<Parsed<Text>> {
    var n :- ReadU32(b);
    if n.value > |n.rest| then Err(Truncated)
    else Ok(Parsed(n.rest[..n.value], n.rest[n.value..]))
  }

  function EncodeAll<T>(xs: seq<T>, enc: T -> Result<Text>): Result<Text> {
    if xs == [] then Ok([])
    else
      var first :- enc(xs[0]);
      var rest :- EncodeAll(xs[1..], enc);
      Ok(first + rest)
  }

  function DecodeMany<T>(n: nat, dec: Text -> Result<Parsed<T>>, b: Text): Result<Parsed<seq<T>>> {
    if n == 0 then Ok(Parsed([], b))
    else
      var first :- dec(b);
      var more :- DecodeMany(n - 1, dec, first.rest);
      Ok(Parsed([first.value] + more.value, more.rest))
  }

  function EncodeList<T>(xs: seq<T>, enc: T -> Result<Text>): Result<Text> {
    if |xs| >= TWO32 then Err(TooMany)
    else
      var all :- EncodeAll(xs, enc);
      Ok(U32(|xs|) + all)
  }

  function DecodeList<T>(dec: Text -> Result<Parsed<T>>, b: Text): Result<Parsed<seq<T>>> {
    var n :- ReadU32(b);
    DecodeMany(n.value, dec, n.rest)
  }

  // ----- struct layouts -----

  function EncodeField(f: StructField): Result<Text> {
    var name :- EncodeText(f.name);
    var envelope :- EncodeText(f.envelope);
    Ok(name + (envelope + (U32(f.offsetBytes) + (U32(f.sizeBytes) + (U32(f.alignmentBytes) +
       (U32(f.paddingKind) + (U32(f.category) + (U32(f.visibility) + U32(if f.isStatic then 1 else 0)))))))))
  }

  /** Enumerations are read as 32-bit words and kept in a byte; visibility 1 is an old
      spelling of Public, which is 2. */
  function DecodeField(b: Text): Result<Parsed<StructField>> {
    var name :- DecodeText(b);
    var envelope :- DecodeText(name.rest);
    var offset :- ReadU32(envelope.rest);
    var size :- ReadU32(offset.rest);
    var alignment :- ReadU32(size.rest);
    var padding :- ReadU32(alignment.rest);
    var category :- ReadU32(padding.rest);
    var visibility :- ReadU32(category.rest);
    var isStatic :- ReadU32(visibility.rest);
    Ok(Parsed(StructField(name.value, envelope.value, offset.value, size.value, alignment.value,
                          padding.value % TWO8, category.value % TWO8,
                          (if visibility.value == 1 then 2 else visibility.value) % TWO8,
                          isStatic.value != 0), isStatic.rest))
  }

  function EncodeLayout(l: StructLayout): Result<Text> {
    var name :- EncodeText(l.name);
    var fields :- EncodeList(l.fields, EncodeField);
    Ok(name + (U32(l.totalSizeBytes) + (U32(l.alignmentBytes) + fields)))
  }

  function DecodeLayout(b: Text): Result<Parsed<StructLayout>> {
    var name :- DecodeText(b);
    var total :- ReadU32(name.rest);
    var alignment :- ReadU32(total.rest);
    var fields :- DecodeList(DecodeField, alignment.rest);
    Ok(Parsed(StructLayout(name.value, total.value, alignment.value, fields.value), fields.rest))
  }

  // ----- functions -----

  function EncodeSlot(s: LocalDebugSlot): Result<Text> {
    var name :- EncodeText(s.name);
    var typeName :- EncodeText(s.typeName);
    Ok(U32(s.slotIndex) + (name + typeName))
  }

  function DecodeSlot(b: Text): Result<Parsed<LocalDebugSlot>> {
    var slot :- ReadU32(b);
    var name :- DecodeText(slot.rest);
    var typeName :- DecodeText(name.rest);
    Ok(Parsed(LocalDebugSlot(slot.value, name.value, typeName.value), typeName.rest))
  }

  function EncodeInstruction(i: Instruction): Result<Text> {
    Ok([i.op] + (U64(i.imm) + U32(i.debugId)))
  }

  /** Opcodes above HeapRealloc are refused, although the encoder writes them. */
  function DecodeInstruction(b: Text): Result<Parsed<Instruction>> {
    var op :- ReadU8(b);
    if op.value < PUSH_I32 || op.value > HEAP_REALLOC then Err(UnsupportedOpcode)
    else
      var imm :- ReadU64(op.rest);
      var debugId :- ReadU32(imm.rest);
      Ok(Parsed(Instruction(op.value, imm.value, debugId.value), debugId.rest))
  }

  function EncodeFunction(f: Function): Result<Text> {
    var name :- EncodeText(f.name);
    var slots :- EncodeList(f.localDebugSlots, EncodeSlot);
    var instructions :- EncodeList(f.instructions, EncodeInstruction);
    Ok(name + (U64(f.metadata.effectMask) + (U64(f.metadata.capabilityMask) + (U32(f.metadata.schedulingScope) +
       (U32(f.metadata.instrumentationFlags) + (U32(f.parameterCount) + (slots + instructions)))))))
  }

  function DecodeFunction(b: Text): Result<Parsed<Function>> {
    var name :- DecodeText(b);
    var effects :- ReadU64(name.rest);
    var capabilities :- ReadU64(effects.rest);
    var scope :- ReadU32(capabilities.rest);
    var flags :- ReadU32(scope.rest);
    var parameters :- ReadU32(flags.rest);
    var slots :- DecodeList(DecodeSlot, parameters.rest);
    var instructions :- DecodeList(DecodeInstruction, slots.rest);
    Ok(Parsed(Function(name.value, Metadata(effects.value, capabilities.value, scope.value, flags.value),
                       parameters.value, slots.value, instructions.value), instructions.rest))
  }

  // ----- the source map -----

  const MAX_PROVENANCE: u8 := 2

  function EncodeEntry(e: SourceMapEntry): Result<Text> {
    var unit :- EncodeText(e.sourceUnit);
    Ok(U32(e.debugId) + (U32(e.line) + (U32(e.column) + ([e.provenance] + unit))))
  }

  function DecodeEntry(b: Text): Result<Parsed<SourceMapEntry>> {
    var debugId :- ReadU32(b);
    var line :- ReadU32(debugId.rest);
    var column :- ReadU32(line.rest);
    var provenance :- ReadU8(column.rest);
    if provenance.value > MAX_PROVENANCE then Err(UnsupportedProvenance)
    else
      var unit :- DecodeText(provenance.rest);
      Ok(Parsed(SourceMapEntry(debugId.value, line.value, column.value, provenance.value, unit.value), unit.rest))
  }

  // ----- modules -----

  /** The function count is written without a range check. */
  function Encode(m: Module): Result<Text> {
    if m.schemaVersion != SCHEMA_VERSION then Err(UnsupportedVersion)
    else if !HasEntry(m) then Err(InvalidEntry)
    else
      var strings :- EncodeList(m.stringTable, EncodeText);
      var layouts :- EncodeList(m.structLayouts, EncodeLayout);
      var functions :- EncodeAll(m.functions, EncodeFunction);
      var entries :- EncodeList(m.sourceMap, EncodeEntry);
      Ok(U32(SCHEMA_MAGIC) + (U32(SCHEMA_VERSION) + (U32(|m.functions| % TWO32) + (U32(m.entryIndex) +
         (strings + (layouts + (functions + entries)))))))
  }

  function Decode(b: Text): Result<Parsed<Module>> {
    var magic := ReadU32(b);
    if magic.Err? || magic.value.value != SCHEMA_MAGIC then Err(InvalidHeader)
    else
      var version :- ReadU32(magic.value.rest);
      if version.value != SCHEMA_VERSION then Err(UnsupportedVersion)
      else
        var count :- ReadU32(version.rest);
        var entry :- ReadU32(count.rest);
        var strings :- DecodeList(DecodeText, entry.rest);
        var layouts :- DecodeList(DecodeLayout, strings.rest);
        var functions :- DecodeMany(count.value, DecodeFunction, layouts.rest);
        var entries :- DecodeList(DecodeEntry, functions.rest);
        if entry.value >= |functions.value| then Err(InvalidEntry)
        else
          Ok(Parsed(Module(version.value, functions.value,
                           if entry.value < TWO31 then entry.value else entry.value - TWO32,
                           strings.value, layouts.value, entries.value), entries.rest))
  }
}
