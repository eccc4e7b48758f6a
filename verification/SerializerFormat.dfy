/** The bytes of a serialized module, and which modules have them. */
module SerializerFormat {
  import opened Ir
  import opened Fallibles
  import opened Serializer
  import opened SerializerRoundTrip

  // ----- the format -----

  /** What a serialized module is made of: bytes, 32-bit and 64-bit words, and texts behind their
      length. */
  datatype Item = Byte(b: u8) | Word(w: u32) | Long(l: u64) | Chars(t: Text)

  function WordBytes(v: u32): Text { [v % 0x100, v / 0x100 % 0x100, v / 0x1_0000 % 0x100, v / 0x100_0000] }

  function ItemBytes(i: Item): Text {
    match i
    case Byte(b) => [b]
    case Word(w) => WordBytes(w)
    case Long(l) => WordBytes(l % 0x1_0000_0000) + WordBytes(l / 0x1_0000_0000)
    case Chars(t) => WordBytes(|t| % 0x1_0000_0000) + t
  }

  function Bytes(items: seq<Item>): Text { if items == [] then [] else ItemBytes(items[0]) + Bytes(items[1..]) }

  /** The items of a list, behind their number. */
  function Row<T>(xs: seq<T>, items: T -> seq<Item>): seq<Item> { [Word(|xs| % 0x1_0000_0000)] + Flat(xs, items) }

  function Flat<T>(xs: seq<T>, items: T -> seq<Item>): seq<Item> {
    if xs == [] then [] else items(xs[0]) + Flat(xs[1..], items)
  }

  function TextItems(t: Text): seq<Item> { [Chars(t)] }

  function FieldItems(f: StructField): seq<Item> {
    [Chars(f.name), Chars(f.envelope), Word(f.offsetBytes), Word(f.sizeBytes), Word(f.alignmentBytes),
     Word(f.paddingKind), Word(f.category), Word(f.visibility), Word(if f.isStatic then 1 else 0)]
  }

  function LayoutItems(l: StructLayout): seq<Item> {
    [Chars(l.name), Word(l.totalSizeBytes), Word(l.alignmentBytes)] + Row(l.fields, FieldItems)
  }

  function SlotItems(s: LocalDebugSlot): seq<Item> { [Word(s.slotIndex), Chars(s.name), Chars(s.typeName)] }

  function InstructionItems(i: Instruction): seq<Item> { [Byte(i.op), Long(i.imm), Word(i.debugId)] }

  function FunctionItems(f: Function): seq<Item> {
    [Chars(f.name), Long(f.metadata.effectMask), Long(f.metadata.capabilityMask), Word(f.metadata.schedulingScope),
     Word(f.metadata.instrumentationFlags), Word(f.parameterCount)]
    + (Row(f.localDebugSlots, SlotItems) + Row(f.instructions, InstructionItems))
  }

  function EntryItems(e: SourceMapEntry): seq<Item> {
    [Word(e.debugId), Word(e.line), Word(e.column), Byte(e.provenance), Chars(e.sourceUnit)]
  }

  /** The letters PSIR from the last on, the version, the number of functions and the entry; then
      strings, layouts, functions without a number of their own, and the source map. */
  function ModuleItems(m: Module): seq<Item>
    requires HasEntry(m)
  {
    [Byte('R' as int), Byte('I' as int), Byte('S' as int), Byte('P' as int), Word(23),
     Word(|m.functions| % 0x1_0000_0000), Word(m.entryIndex)]
    + (Row(m.stringTable, TextItems)
       + (Row(m.structLayouts, LayoutItems) + (Flat(m.functions, FunctionItems) + Row(m.sourceMap, EntryItems))))
  }

  // ----- what fits it -----

  predicate Counts(n: nat) { n < 0x1_0000_0000 }

  predicate FieldFits(f: StructField) { Counts(|f.name|) && Counts(|f.envelope|) }

  predicate LayoutFits(l: StructLayout) {
    Counts(|l.name|) && Counts(|l.fields|) && forall f :: f in l.fields ==> FieldFits(f)
  }

  predicate SlotFits(s: LocalDebugSlot) { Counts(|s.name|) && Counts(|s.typeName|) }

  predicate FunctionFits(f: Function) {
    && Counts(|f.name|) && Counts(|f.localDebugSlots|) && Counts(|f.instructions|)
    && forall s :: s in f.localDebugSlots ==> SlotFits(s)
  }

  /** Every text of a module is shorter than 2^32 bytes, and so is every list but the functions. */
  predicate ModuleFits(m: Module) {
    && Counts(|m.stringTable|) && Counts(|m.structLayouts|) && Counts(|m.sourceMap|)
    && (forall t :: t in m.stringTable ==> Counts(|t|))
    && (forall l :: l in m.structLayouts ==> LayoutFits(l))
    && (forall f :: f in m.functions ==> FunctionFits(f))
    && (forall e :: e in m.sourceMap ==> Counts(|e.sourceUnit|))
  }

  // ----- bytes of items -----

  lemma {:induction false} LittleEndianStep(v: nat, width: nat)
    requires width > 0
    ensures LittleEndian(v, width) == [v % 256] + LittleEndian(v / 256, width - 1)
  {
  }

  lemma {:induction false} WordIsWritten(v: u32)
    ensures U32(v) == WordBytes(v)
  {
    hide LittleEndian;
    LittleEndianStep(v, 4);
    LittleEndianStep(v / 256, 3);
    LittleEndianStep(v / 256 / 256, 2);
    LittleEndianStep(v / 256 / 256 / 256, 1);
    assert LittleEndian(v / 256 / 256 / 256 / 256, 0) == [];
  }

  lemma {:induction false} LowestByte(a: u8, w: nat)
    ensures (a + 0x100 * w) % 0x100 == a && (a + 0x100 * w) / 0x100 == w
  {
  }

  lemma {:induction false} LowestBytes(a: nat, w: nat)
    requires a < 0x1_0000
    ensures (a + 0x1_0000 * w) % 0x1_0000 == a && (a + 0x1_0000 * w) / 0x1_0000 == w
  {
  }

  lemma {:induction false} LowDigits(v: nat)
    ensures v % 0x1_0000 % 256 == v % 256 && v % 0x1_0000 / 256 == v / 256 % 256
    ensures v / 256 / 256 == v / 0x1_0000 && v / 256 % 256 / 256 == 0
  {
    var a, b, w := v % 256, v / 256 % 256, v / 256 / 256;
    LowestByte(a, b);
    LowestBytes(a + 256 * b, w);
    assert v == (a + 256 * b) + 0x1_0000 * w;
  }

  lemma {:induction false} HalfOfHalf(v: nat, width: nat)
    ensures LittleEndian(v, width + 2) == LittleEndian(v % 0x1_0000, 2) + LittleEndian(v / 0x1_0000, width)
  {
    hide LittleEndian;
    LowDigits(v);
    LittleEndianStep(v, width + 2);
    LittleEndianStep(v / 256, width + 1);
    LittleEndianStep(v % 0x1_0000, 2);
    LittleEndianStep(v % 0x1_0000 / 256, 1);
    assert LittleEndian(v % 0x1_0000 / 256 / 256, 0) == [];
  }

  lemma {:induction false} MiddleDigits(v: nat)
    ensures v % 0x1_0000_0000 % 0x1_0000 == v % 0x1_0000 && v % 0x1_0000_0000 / 0x1_0000 == v / 0x1_0000 % 0x1_0000
    ensures v / 0x1_0000 / 0x1_0000 == v / 0x1_0000_0000 && v / 0x1_0000 % 0x1_0000 / 0x1_0000 == 0
  {
  }

  lemma {:induction false} Halves(v: nat, width: nat)
    ensures LittleEndian(v, width + 4) == LittleEndian(v % 0x1_0000_0000, 4) + LittleEndian(v / 0x1_0000_0000, width)
  {
    hide LittleEndian;
    MiddleDigits(v);
    HalfOfHalf(v, width + 2);
    HalfOfHalf(v / 0x1_0000, width);
    HalfOfHalf(v % 0x1_0000_0000, 2);
  }

  lemma {:induction false} LongIsWritten(v: u64)
    ensures U64(v) == WordBytes(v % 0x1_0000_0000) + WordBytes(v / 0x1_0000_0000)
  {
    hide LittleEndian, WordBytes;
    Halves(v, 4);
    WordIsWritten(v % 0x1_0000_0000);
    WordIsWritten(v / 0x1_0000_0000);
  }

  lemma {:induction false} TextIsWritten(t: Text)
    ensures if Counts(|t|) then EncodeText(t) == Ok(ItemBytes(Chars(t))) else EncodeText(t) == Err(TooLong)
  {
    hide U32, WordBytes;
    if Counts(|t|) {
      WordIsWritten(|t|);
    }
  }

  lemma {:induction false} BytesOn(i: Item, rest: seq<Item>)
    ensures Bytes([i] + rest) == ItemBytes(i) + Bytes(rest)
  {
    assert ([i] + rest)[1..] == rest;
  }

  lemma {:induction false} BytesOne(i: Item)
    ensures Bytes([i]) == ItemBytes(i)
  {
    assert [i][1..] == [];
  }

  lemma {:induction false} BytesConcat(a: seq<Item>, b: seq<Item>)
    ensures Bytes(a + b) == Bytes(a) + Bytes(b)
  {
    if a == [] {
      assert a + b == b;
    } else {
      assert (a + b)[1..] == a[1..] + b;
      BytesConcat(a[1..], b);
      Assoc(ItemBytes(a[0]), Bytes(a[1..]), Bytes(b));
    }
  }

  // ----- bytes of parts -----

  /** An encoder writes the items of a value if it fits, and fails otherwise. */
  ghost predicate Writes<T(!new)>(enc: T -> Result<Text>, items: T -> seq<Item>, fits: T -> bool, x: T) {
    if fits(x) then enc(x) == Ok(Bytes(items(x))) else enc(x).Err?
  }

  lemma {:induction false} AllAreWritten<T(!new)>(xs: seq<T>, enc: T -> Result<Text>, items: T -> seq<Item>, fits: T -> bool)
    requires forall x :: x in xs ==> Writes(enc, items, fits, x)
    ensures if forall x :: x in xs ==> fits(x) then EncodeAll(xs, enc) == Ok(Bytes(Flat(xs, items))) else EncodeAll(xs, enc).Err?
  {
    if xs != [] {
      assert xs == [xs[0]] + xs[1..];
      assert Writes(enc, items, fits, xs[0]);
      AllAreWritten(xs[1..], enc, items, fits);
      BytesConcat(items(xs[0]), Flat(xs[1..], items));
    }
  }

  lemma {:induction false} RowIsWritten<T(!new)>(xs: seq<T>, enc: T -> Result<Text>, items: T -> seq<Item>, fits: T -> bool)
    requires forall x :: x in xs ==> Writes(enc, items, fits, x)
    ensures if Counts(|xs|) && forall x :: x in xs ==> fits(x)
            then EncodeList(xs, enc) == Ok(Bytes(Row(xs, items))) else EncodeList(xs, enc).Err?
  {
    hide U32, WordBytes;
    AllAreWritten(xs, enc, items, fits);
    if Counts(|xs|) {
      WordIsWritten(|xs|);
      BytesOn(Word(|xs|), Flat(xs, items));
    }
  }

  lemma {:induction false} TextsAreWritten(t: Text)
    ensures Writes(EncodeText, TextItems, (x: Text) => Counts(|x|), t)
  {
    hide EncodeText, ItemBytes;
    TextIsWritten(t);
    BytesOne(Chars(t));
  }

  lemma {:induction false} FieldIsWritten(f: StructField)
    ensures Writes(EncodeField, FieldItems, FieldFits, f)
  {
    hide EncodeText, U32, WordBytes, Bytes;
    TextIsWritten(f.name);
    TextIsWritten(f.envelope);
    if FieldFits(f) {
      var i8 := [Word(if f.isStatic then 1 else 0)];
      var i7 := [Word(f.visibility)] + i8;
      var i6 := [Word(f.category)] + i7;
      var i5 := [Word(f.paddingKind)] + i6;
      var i4 := [Word(f.alignmentBytes)] + i5;
      var i3 := [Word(f.sizeBytes)] + i4;
      var i2 := [Word(f.offsetBytes)] + i3;
      var i1 := [Chars(f.envelope)] + i2;
      assert FieldItems(f) == [Chars(f.name)] + i1;
      BytesOne(i8[0]);
      BytesOn(i7[0], i8);
      BytesOn(i6[0], i7);
      BytesOn(i5[0], i6);
      BytesOn(i4[0], i5);
      BytesOn(i3[0], i4);
      BytesOn(i2[0], i3);
      BytesOn(i1[0], i2);
      BytesOn(Chars(f.name), i1);
      WordIsWritten(if f.isStatic then 1 else 0);
      WordIsWritten(f.visibility);
      WordIsWritten(f.category);
      WordIsWritten(f.paddingKind);
      WordIsWritten(f.alignmentBytes);
      WordIsWritten(f.sizeBytes);
      WordIsWritten(f.offsetBytes);
    }
  }

  lemma {:induction false} LayoutIsWritten(l: StructLayout)
    ensures Writes(EncodeLayout, LayoutItems, LayoutFits, l)
  {
    hide EncodeText, U32, WordBytes, Bytes, EncodeList, EncodeField, FieldItems, FieldFits, Row;
    TextIsWritten(l.name);
    forall f | f in l.fields
      ensures Writes(EncodeField, FieldItems, FieldFits, f)
    {
      FieldIsWritten(f);
    }
    RowIsWritten(l.fields, EncodeField, FieldItems, FieldFits);
    if LayoutFits(l) {
      var i2 := [Word(l.alignmentBytes)] + Row(l.fields, FieldItems);
      var i1 := [Word(l.totalSizeBytes)] + i2;
      assert LayoutItems(l) == [Chars(l.name)] + i1;
      BytesOn(i2[0], Row(l.fields, FieldItems));
      BytesOn(i1[0], i2);
      BytesOn(Chars(l.name), i1);
      WordIsWritten(l.alignmentBytes);
      WordIsWritten(l.totalSizeBytes);
    }
  }

  lemma {:induction false} SlotIsWritten(s: LocalDebugSlot)
    ensures Writes(EncodeSlot, SlotItems, SlotFits, s)
  {
    hide EncodeText, U32, WordBytes, Bytes;
    TextIsWritten(s.name);
    TextIsWritten(s.typeName);
    if SlotFits(s) {
      var i2 := [Chars(s.typeName)];
      var i1 := [Chars(s.name)] + i2;
      assert SlotItems(s) == [Word(s.slotIndex)] + i1;
      BytesOne(i2[0]);
      BytesOn(i1[0], i2);
      BytesOn(Word(s.slotIndex), i1);
      WordIsWritten(s.slotIndex);
    }
  }

  lemma {:induction false} InstructionIsWritten(i: Instruction)
    ensures Writes(EncodeInstruction, InstructionItems, (x: Instruction) => true, i)
  {
    hide U32, U64, WordBytes, Bytes;
    var i2 := [Word(i.debugId)];
    var i1 := [Long(i.imm)] + i2;
    assert InstructionItems(i) == [Byte(i.op)] + i1;
    BytesOne(i2[0]);
    BytesOn(i1[0], i2);
    BytesOn(Byte(i.op), i1);
    LongIsWritten(i.imm);
    WordIsWritten(i.debugId);
  }

  lemma {:induction false} CodeIsWritten(f: Function)
    ensures if Counts(|f.localDebugSlots|) && forall s :: s in f.localDebugSlots ==> SlotFits(s)
            then EncodeList(f.localDebugSlots, EncodeSlot) == Ok(Bytes(Row(f.localDebugSlots, SlotItems)))
            else EncodeList(f.localDebugSlots, EncodeSlot).Err?
    ensures if Counts(|f.instructions|)
            then EncodeList(f.instructions, EncodeInstruction) == Ok(Bytes(Row(f.instructions, InstructionItems)))
            else EncodeList(f.instructions, EncodeInstruction).Err?
  {
    hide Bytes, EncodeList, EncodeSlot, SlotItems, EncodeInstruction, InstructionItems, Row, SlotFits;
    forall s | s in f.localDebugSlots
      ensures Writes(EncodeSlot, SlotItems, SlotFits, s)
    {
      SlotIsWritten(s);
    }
    var any := (x: Instruction) => true;
    forall i | i in f.instructions
      ensures Writes(EncodeInstruction, InstructionItems, any, i)
    {
      InstructionIsWritten(i);
    }
    RowIsWritten(f.localDebugSlots, EncodeSlot, SlotItems, SlotFits);
    RowIsWritten(f.instructions, EncodeInstruction, InstructionItems, any);
  }

  lemma {:induction false} FunctionIsWritten(f: Function)
    ensures Writes(EncodeFunction, FunctionItems, FunctionFits, f)
  {
    hide EncodeText, U32, U64, WordBytes, Bytes, EncodeList, EncodeSlot, EncodeInstruction, Row, SlotFits;
    TextIsWritten(f.name);
    CodeIsWritten(f);
    if FunctionFits(f) {
      var code := Row(f.localDebugSlots, SlotItems) + Row(f.instructions, InstructionItems);
      var i5 := [Word(f.parameterCount)] + code;
      var i4 := [Word(f.metadata.instrumentationFlags)] + i5;
      var i3 := [Word(f.metadata.schedulingScope)] + i4;
      var i2 := [Long(f.metadata.capabilityMask)] + i3;
      var i1 := [Long(f.metadata.effectMask)] + i2;
      assert FunctionItems(f) == [Chars(f.name)] + i1;
      BytesConcat(Row(f.localDebugSlots, SlotItems), Row(f.instructions, InstructionItems));
      BytesOn(i5[0], code);
      BytesOn(i4[0], i5);
      BytesOn(i3[0], i4);
      BytesOn(i2[0], i3);
      BytesOn(i1[0], i2);
      BytesOn(Chars(f.name), i1);
      WordIsWritten(f.parameterCount);
      WordIsWritten(f.metadata.instrumentationFlags);
      WordIsWritten(f.metadata.schedulingScope);
      LongIsWritten(f.metadata.capabilityMask);
      LongIsWritten(f.metadata.effectMask);
    }
  }

  lemma {:induction false} EntryIsWritten(e: SourceMapEntry)
    ensures Writes(EncodeEntry, EntryItems, (x: SourceMapEntry) => Counts(|x.sourceUnit|), e)
  {
    hide EncodeText, U32, WordBytes, Bytes;
    TextIsWritten(e.sourceUnit);
    if Counts(|e.sourceUnit|) {
      var i4 := [Chars(e.sourceUnit)];
      var i3 := [Byte(e.provenance)] + i4;
      var i2 := [Word(e.column)] + i3;
      var i1 := [Word(e.line)] + i2;
      assert EntryItems(e) == [Word(e.debugId)] + i1;
      BytesOne(i4[0]);
      BytesOn(i3[0], i4);
      BytesOn(i2[0], i3);
      BytesOn(i1[0], i2);
      BytesOn(Word(e.debugId), i1);
      WordIsWritten(e.column);
      WordIsWritten(e.line);
      WordIsWritten(e.debugId);
    }
  }

  // ----- modules -----

  lemma {:induction false} StringsAreWritten(m: Module)
    ensures if Counts(|m.stringTable|) && forall t :: t in m.stringTable ==> Counts(|t|)
            then EncodeList(m.stringTable, EncodeText) == Ok(Bytes(Row(m.stringTable, TextItems)))
            else EncodeList(m.stringTable, EncodeText).Err?
  {
    hide Bytes, EncodeList, EncodeText, TextItems, Row;
    var fits := (x: Text) => Counts(|x|);
    forall t | t in m.stringTable
      ensures Writes(EncodeText, TextItems, fits, t)
    {
      TextsAreWritten(t);
    }
    RowIsWritten(m.stringTable, EncodeText, TextItems, fits);
  }

  lemma {:induction false} LayoutsAreWritten(m: Module)
    ensures if Counts(|m.structLayouts|) && forall l :: l in m.structLayouts ==> LayoutFits(l)
            then EncodeList(m.structLayouts, EncodeLayout) == Ok(Bytes(Row(m.structLayouts, LayoutItems)))
            else EncodeList(m.structLayouts, EncodeLayout).Err?
  {
    hide Bytes, EncodeList, EncodeLayout, LayoutItems, LayoutFits, Row;
    forall l | l in m.structLayouts
      ensures Writes(EncodeLayout, LayoutItems, LayoutFits, l)
    {
      LayoutIsWritten(l);
    }
    RowIsWritten(m.structLayouts, EncodeLayout, LayoutItems, LayoutFits);
  }

  lemma {:induction false} FunctionsAreWritten(m: Module)
    ensures if forall f :: f in m.functions ==> FunctionFits(f)
            then EncodeAll(m.functions, EncodeFunction) == Ok(Bytes(Flat(m.functions, FunctionItems)))
            else EncodeAll(m.functions, EncodeFunction).Err?
  {
    hide Bytes, EncodeAll, EncodeFunction, FunctionItems, FunctionFits, Flat;
    forall f | f in m.functions
      ensures Writes(EncodeFunction, FunctionItems, FunctionFits, f)
    {
      FunctionIsWritten(f);
    }
    AllAreWritten(m.functions, EncodeFunction, FunctionItems, FunctionFits);
  }

  lemma {:induction false} EntriesAreWritten(m: Module)
    ensures if Counts(|m.sourceMap|) && forall e :: e in m.sourceMap ==> Counts(|e.sourceUnit|)
            then EncodeList(m.sourceMap, EncodeEntry) == Ok(Bytes(Row(m.sourceMap, EntryItems)))
            else EncodeList(m.sourceMap, EncodeEntry).Err?
  {
    hide Bytes, EncodeList, EncodeEntry, EntryItems, Row;
    var fits := (x: SourceMapEntry) => Counts(|x.sourceUnit|);
    forall e | e in m.sourceMap
      ensures Writes(EncodeEntry, EntryItems, fits, e)
    {
      EntryIsWritten(e);
    }
    RowIsWritten(m.sourceMap, EncodeEntry, EntryItems, fits);
  }

  lemma {:induction false} MagicIsWritten(rest: seq<Item>)
    ensures Bytes([Byte('R' as int), Byte('I' as int), Byte('S' as int), Byte('P' as int)] + rest) == U32(SCHEMA_MAGIC) + Bytes(rest)
  {
    hide Bytes, LittleEndian;
    var i3 := [Byte('P' as int)] + rest;
    var i2 := [Byte('S' as int)] + i3;
    var i1 := [Byte('I' as int)] + i2;
    assert [Byte('R' as int), Byte('I' as int), Byte('S' as int), Byte('P' as int)] + rest == [Byte('R' as int)] + i1;
    BytesOn(i3[0], rest);
    BytesOn(i2[0], i3);
    BytesOn(i1[0], i2);
    BytesOn(Byte('R' as int), i1);
    WordIsWritten(SCHEMA_MAGIC);
  }

  lemma {:induction false} HeaderIsWritten(m: Module, rest: seq<Item>)
    requires HasEntry(m) && m.entryIndex < TWO32
    ensures Bytes([Byte('R' as int), Byte('I' as int), Byte('S' as int), Byte('P' as int), Word(23),
                   Word(|m.functions| % 0x1_0000_0000), Word(m.entryIndex)] + rest) ==
            U32(SCHEMA_MAGIC) + (U32(SCHEMA_VERSION) + (U32(|m.functions| % TWO32) + (U32(m.entryIndex) + Bytes(rest))))
  {
    hide Bytes, U32, WordBytes;
    var i2 := [Word(m.entryIndex)] + rest;
    var i1 := [Word(|m.functions| % 0x1_0000_0000)] + i2;
    var i0 := [Word(23)] + i1;
    assert [Byte('R' as int), Byte('I' as int), Byte('S' as int), Byte('P' as int), Word(23),
            Word(|m.functions| % 0x1_0000_0000), Word(m.entryIndex)] + rest
        == [Byte('R' as int), Byte('I' as int), Byte('S' as int), Byte('P' as int)] + i0;
    MagicIsWritten(i0);
    BytesOn(i2[0], rest);
    BytesOn(i1[0], i2);
    BytesOn(i0[0], i1);
    WordIsWritten(m.entryIndex);
    WordIsWritten(|m.functions| % 0x1_0000_0000);
    WordIsWritten(23);
  }

  /** A module is encoded exactly if it is of version 23, its entry is one of its functions, and
      every length fits 32 bits, but for the number of functions; and then to these bytes. */
  lemma {:induction false} ModuleIsWritten(m: Module)
    ensures Encode(m).Ok? <==> m.schemaVersion == 23 && 0 <= m.entryIndex < |m.functions| && ModuleFits(m)
    ensures Encode(m).Ok? ==> Encode(m).value == Bytes(ModuleItems(m))
    ensures m.schemaVersion != 23 ==> Encode(m) == Err(UnsupportedVersion)
    ensures m.schemaVersion == 23 && !(0 <= m.entryIndex < |m.functions|) ==> Encode(m) == Err(InvalidEntry)
  {
    hide Bytes, U32, EncodeList, EncodeAll, EncodeText, EncodeLayout, EncodeFunction, EncodeEntry, Row, Flat,
         LayoutFits, FunctionFits, TextItems, LayoutItems, FunctionItems, EntryItems;
    StringsAreWritten(m);
    LayoutsAreWritten(m);
    FunctionsAreWritten(m);
    EntriesAreWritten(m);
    if HasEntry(m) {
      var tail := Flat(m.functions, FunctionItems) + Row(m.sourceMap, EntryItems);
      BytesConcat(Flat(m.functions, FunctionItems), Row(m.sourceMap, EntryItems));
      BytesConcat(Row(m.structLayouts, LayoutItems), tail);
      BytesConcat(Row(m.stringTable, TextItems), Row(m.structLayouts, LayoutItems) + tail);
      HeaderIsWritten(m, Row(m.stringTable, TextItems) + (Row(m.structLayouts, LayoutItems) + tail));
    }
  }

  /** Every module that can be written, and has no more functions than can be counted, no dynamic
      file write, no visibility 1 and no unknown provenance, is read back from its bytes. */
  lemma {:induction false} ModuleIsReadBack(m: Module, t: Text)
    requires m.schemaVersion == 23 && 0 <= m.entryIndex < |m.functions| && ModuleFits(m)
    ensures Decode(Bytes(ModuleItems(m)) + t) == Ok(Parsed(m, t)) <==> GoodModule(m)
  {
    hide Bytes, Encode, Decode, ModuleItems, ModuleFits, GoodModule;
    ModuleIsWritten(m);
    RoundTripExactly(m, Bytes(ModuleItems(m)), t);
  }
}
