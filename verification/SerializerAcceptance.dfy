/** What the decoder accepts: as many bytes as the encoder writes for what was read. */
module SerializerAcceptance {
  import opened Ir
  import opened Fallibles
  import opened Serializer
  import opened SerializerRoundTrip
  import opened SerializerFormat

  /** What `dec` reads of `b`, if anything, is good and can be encoded, in as many bytes as were
      taken off the front. */
  ghost predicate Takes<T(!new)>(dec: Text -> Result<Parsed<T>>, enc: T -> Result<Text>, good: T -> bool, b: Text) {
    dec(b).Ok? ==>
      var p := dec(b).value;
      good(p.value) && enc(p.value).Ok? && Behind(b, |enc(p.value).value|, p.rest)
  }

  predicate Any<T>(x: T) { true }

  /** The bytes behind the first `n`. */
  predicate Behind(b: Text, n: nat, rest: Text) { n <= |b| && b[n..] == rest }

  ghost predicate TakesAlways<T(!new)>(dec: Text -> Result<Parsed<T>>, enc: T -> Result<Text>, good: T -> bool) {
    forall b: Text {:trigger dec(b)} :: Takes(dec, enc, good, b)
  }

  lemma {:induction false} BehindBehind(a: Text, m: nat, b: Text, n: nat, c: Text)
    requires Behind(a, m, b) && Behind(b, n, c)
    ensures Behind(a, m + n, c)
  {
  }

  lemma {:induction false} U32Taken(b: Text)
    requires ReadU32(b).Ok?
    ensures Behind(b, 4, ReadU32(b).value.rest)
  {
  }

  lemma {:induction false} U64Taken(b: Text)
    requires ReadU64(b).Ok?
    ensures Behind(b, 8, ReadU64(b).value.rest)
  {
  }

  lemma {:induction false} U8Taken(b: Text)
    requires ReadU8(b).Ok?
    ensures Behind(b, 1, ReadU8(b).value.rest)
  {
  }

  lemma {:induction false} TextTaken(b: Text)
    requires DecodeText(b).Ok?
    ensures var x := DecodeText(b).value;
            EncodeText(x.value).Ok? && |EncodeText(x.value).value| == 4 + |x.value| && Behind(b, 4 + |x.value|, x.rest)
  {
    U32Taken(b);
    var n := ReadU32(b).value;
    BehindBehind(b, 4, n.rest, n.value, DecodeText(b).value.rest);
  }

  lemma {:induction false} ManyTaken<T(!new)>(n: nat, dec: Text -> Result<Parsed<T>>, enc: T -> Result<Text>, good: T -> bool, b: Text)
    requires TakesAlways(dec, enc, good) && DecodeMany(n, dec, b).Ok?
    ensures var p := DecodeMany(n, dec, b).value;
            && |p.value| == n && (forall x :: x in p.value ==> good(x))
            && EncodeAll(p.value, enc).Ok? && Behind(b, |EncodeAll(p.value, enc).value|, p.rest)
    decreases n
  {
    hide Behind;
    if n == 0 {
      NothingTaken(b);
    } else {
      var first := dec(b).value;
      assert Takes(dec, enc, good, b);
      ManyTaken(n - 1, dec, enc, good, first.rest);
      var more := DecodeMany(n - 1, dec, first.rest).value;
      BehindBehind(b, |enc(first.value).value|, first.rest, |EncodeAll(more.value, enc).value|, more.rest);
      assert ([first.value] + more.value)[1..] == more.value;
    }
  }

  lemma {:induction false} NothingTaken(b: Text)
    ensures Behind(b, 0, b)
  {
  }

  lemma {:induction false} ListTaken<T(!new)>(dec: Text -> Result<Parsed<T>>, enc: T -> Result<Text>, good: T -> bool, b: Text)
    requires TakesAlways(dec, enc, good) && DecodeList(dec, b).Ok?
    ensures var p := DecodeList(dec, b).value;
            && (forall x :: x in p.value ==> good(x))
            && EncodeList(p.value, enc).Ok? && Behind(b, |EncodeList(p.value, enc).value|, p.rest)
  {
    hide Behind;
    U32Taken(b);
    var n := ReadU32(b).value;
    ManyTaken(n.value, dec, enc, good, n.rest);
    var p := DecodeMany(n.value, dec, n.rest).value;
    BehindBehind(b, 4, n.rest, |EncodeAll(p.value, enc).value|, p.rest);
  }

  // ----- part by part -----

  lemma {:induction false} FieldTaken()
    ensures TakesAlways(DecodeField, EncodeField, Any<StructField>)
  {
    hide DecodeText, EncodeText, ReadU32, U32, Behind;
    forall b: Text
      ensures Takes(DecodeField, EncodeField, Any<StructField>, b)
    {
      if DecodeField(b).Ok? {
        FieldBytesTaken(b);
      }
    }
  }

  /** Behind the names of a field stand seven words. */
  lemma {:induction false} FieldWordsTaken(b: Text)
    requires DecodeField(b).Ok?
    ensures DecodeText(b).Ok? && DecodeText(DecodeText(b).value.rest).Ok?
    ensures Behind(DecodeText(DecodeText(b).value.rest).value.rest, 28, DecodeField(b).value.rest)
    ensures DecodeField(b).value.value.name == DecodeText(b).value.value
    ensures DecodeField(b).value.value.envelope == DecodeText(DecodeText(b).value.rest).value.value
  {
    hide DecodeText, FromLittleEndian;
    var envelope := DecodeText(DecodeText(b).value.rest).value;
    assert DecodeField(b).value.rest == envelope.rest[4..][4..][4..][4..][4..][4..][4..];
  }

  lemma {:induction false} FieldBytesTaken(b: Text)
    requires DecodeField(b).Ok?
    ensures EncodeField(DecodeField(b).value.value).Ok?
    ensures Behind(b, |EncodeField(DecodeField(b).value.value).value|, DecodeField(b).value.rest)
  {
    hide DecodeText, EncodeText, EncodeField, DecodeField, Behind;
    FieldWordsTaken(b);
    var name := DecodeText(b).value;
    var envelope := DecodeText(name.rest).value;
    TextTaken(b);
    TextTaken(name.rest);
    var n := 4 + |name.value|;
    BehindBehind(b, n, name.rest, 4 + |envelope.value|, envelope.rest);
    BehindBehind(b, n + 4 + |envelope.value|, envelope.rest, 28, DecodeField(b).value.rest);
    FieldLength(DecodeField(b).value.value);
  }

  lemma {:induction false} FieldLength(f: StructField)
    requires EncodeText(f.name).Ok? && EncodeText(f.envelope).Ok?
    ensures EncodeField(f).Ok?
    ensures |EncodeField(f).value| == |EncodeText(f.name).value| + |EncodeText(f.envelope).value| + 28
  {
    hide EncodeText, LittleEndian;
  }

  lemma {:induction false} LayoutTaken()
    ensures TakesAlways(DecodeLayout, EncodeLayout, Any<StructLayout>)
  {
    hide DecodeText, EncodeText, ReadU32, LittleEndian, Behind, DecodeList, EncodeList, DecodeField, EncodeField;
    FieldTaken();
    forall b: Text
      ensures Takes(DecodeLayout, EncodeLayout, Any<StructLayout>, b)
    {
      if DecodeLayout(b).Ok? {
        var name := DecodeText(b).value;
        var total := ReadU32(name.rest).value;
        var alignment := ReadU32(total.rest).value;
        var fields := DecodeList(DecodeField, alignment.rest).value;
        TextTaken(b);
        U32Taken(name.rest);
        U32Taken(total.rest);
        ListTaken(DecodeField, EncodeField, Any<StructField>, alignment.rest);
        var n := 4 + |name.value|;
        BehindBehind(b, n, name.rest, 4, total.rest);
        BehindBehind(b, n + 4, total.rest, 4, alignment.rest);
        BehindBehind(b, n + 8, alignment.rest, |EncodeList(fields.value, EncodeField).value|, fields.rest);
      }
    }
  }

  lemma {:induction false} SlotTaken()
    ensures TakesAlways(DecodeSlot, EncodeSlot, Any<LocalDebugSlot>)
  {
    hide DecodeText, EncodeText, ReadU32, LittleEndian, Behind;
    forall b: Text
      ensures Takes(DecodeSlot, EncodeSlot, Any<LocalDebugSlot>, b)
    {
      if DecodeSlot(b).Ok? {
        var slot := ReadU32(b).value;
        var name := DecodeText(slot.rest).value;
        U32Taken(b);
        TextTaken(slot.rest);
        TextTaken(name.rest);
        BehindBehind(b, 4, slot.rest, 4 + |name.value|, name.rest);
        BehindBehind(b, 8 + |name.value|, name.rest, 4 + |DecodeSlot(b).value.value.typeName|, DecodeSlot(b).value.rest);
      }
    }
  }

  lemma {:induction false} InstructionTaken()
    ensures TakesAlways(DecodeInstruction, EncodeInstruction, GoodInstruction)
  {
    hide ReadU8, ReadU32, ReadU64, LittleEndian, Behind;
    forall b: Text
      ensures Takes(DecodeInstruction, EncodeInstruction, GoodInstruction, b)
    {
      if DecodeInstruction(b).Ok? {
        var op := ReadU8(b).value;
        var imm := ReadU64(op.rest).value;
        U8Taken(b);
        U64Taken(op.rest);
        U32Taken(imm.rest);
        BehindBehind(b, 1, op.rest, 8, imm.rest);
        BehindBehind(b, 9, imm.rest, 4, DecodeInstruction(b).value.rest);
      }
    }
  }

  lemma {:induction false} FunctionTaken()
    ensures TakesAlways(DecodeFunction, EncodeFunction, GoodFunction)
  {
    hide DecodeText, EncodeText, ReadU32, ReadU64, LittleEndian, Behind, DecodeList, EncodeList, DecodeSlot, EncodeSlot,
         DecodeInstruction, EncodeInstruction;
    forall b: Text
      ensures Takes(DecodeFunction, EncodeFunction, GoodFunction, b)
    {
      if DecodeFunction(b).Ok? {
        FunctionBytesTaken(b);
      }
    }
  }

  lemma {:induction false} FunctionBytesTaken(b: Text)
    requires DecodeFunction(b).Ok?
    ensures GoodFunction(DecodeFunction(b).value.value)
    ensures EncodeFunction(DecodeFunction(b).value.value).Ok?
    ensures Behind(b, |EncodeFunction(DecodeFunction(b).value.value).value|, DecodeFunction(b).value.rest)
  {
    hide DecodeText, EncodeText, ReadU32, ReadU64, LittleEndian, Behind, DecodeList, EncodeList, DecodeSlot, EncodeSlot,
         DecodeInstruction, EncodeInstruction, GoodInstruction;
    var name := DecodeText(b).value;
    var effects := ReadU64(name.rest).value;
    var capabilities := ReadU64(effects.rest).value;
    var scope := ReadU32(capabilities.rest).value;
    var flags := ReadU32(scope.rest).value;
    var parameters := ReadU32(flags.rest).value;
    var slots := DecodeList(DecodeSlot, parameters.rest).value;
    var instructions := DecodeList(DecodeInstruction, slots.rest).value;
    TextTaken(b);
    U64Taken(name.rest);
    U64Taken(effects.rest);
    U32Taken(capabilities.rest);
    U32Taken(scope.rest);
    U32Taken(flags.rest);
    SlotTaken();
    InstructionTaken();
    ListTaken(DecodeSlot, EncodeSlot, Any<LocalDebugSlot>, parameters.rest);
    ListTaken(DecodeInstruction, EncodeInstruction, GoodInstruction, slots.rest);
    var n := 4 + |name.value|;
    var s := |EncodeList(slots.value, EncodeSlot).value|;
    BehindBehind(b, n, name.rest, 8, effects.rest);
    BehindBehind(b, n + 8, effects.rest, 8, capabilities.rest);
    BehindBehind(b, n + 16, capabilities.rest, 4, scope.rest);
    BehindBehind(b, n + 20, scope.rest, 4, flags.rest);
    BehindBehind(b, n + 24, flags.rest, 4, parameters.rest);
    BehindBehind(b, n + 28, parameters.rest, s, slots.rest);
    BehindBehind(b, n + 28 + s, slots.rest, |EncodeList(instructions.value, EncodeInstruction).value|, instructions.rest);
  }

  lemma {:induction false} EntryTaken()
    ensures TakesAlways(DecodeEntry, EncodeEntry, GoodEntry)
  {
    hide DecodeText, EncodeText, ReadU8, ReadU32, LittleEndian, Behind;
    forall b: Text
      ensures Takes(DecodeEntry, EncodeEntry, GoodEntry, b)
    {
      if DecodeEntry(b).Ok? {
        var debugId := ReadU32(b).value;
        var line := ReadU32(debugId.rest).value;
        var column := ReadU32(line.rest).value;
        var provenance := ReadU8(column.rest).value;
        U32Taken(b);
        U32Taken(debugId.rest);
        U32Taken(line.rest);
        U8Taken(column.rest);
        TextTaken(provenance.rest);
        BehindBehind(b, 4, debugId.rest, 4, line.rest);
        BehindBehind(b, 8, line.rest, 4, column.rest);
        BehindBehind(b, 12, column.rest, 1, provenance.rest);
        BehindBehind(b, 13, provenance.rest, 4 + |DecodeEntry(b).value.value.sourceUnit|, DecodeEntry(b).value.rest);
      }
    }
  }

  lemma {:induction false} StringTaken()
    ensures TakesAlways(DecodeText, EncodeText, Any<Text>)
  {
    hide DecodeText, EncodeText, Behind;
    forall b: Text
      ensures Takes(DecodeText, EncodeText, Any<Text>, b)
    {
      if DecodeText(b).Ok? {
        TextTaken(b);
      }
    }
  }

  // ----- modules -----

  lemma {:induction false} HeaderRead(b: Text)
    requires Decode(b).Ok?
    ensures |b| >= 16 && FromLittleEndian(b[..4]) == SCHEMA_MAGIC && FromLittleEndian(b[4..8]) == 23
    ensures |Decode(b).value.value.functions| == FromLittleEndian(b[8..12])
    ensures Decode(b).value.value.schemaVersion == 23
  {
    hide DecodeText, DecodeList, DecodeMany, DecodeLayout, DecodeFunction, DecodeEntry, FromLittleEndian;
    var version := ReadU32(b[4..]).value;
    var count := ReadU32(b[8..]).value;
    assert b[4..][..4] == b[4..8] && b[4..][4..] == b[8..] && b[8..][..4] == b[8..12] && b[8..][4..] == b[12..];
    var strings := DecodeList(DecodeText, b[12..][4..]).value;
    var layouts := DecodeList(DecodeLayout, strings.rest).value;
    ManyLength(count.value, DecodeFunction, layouts.rest);
  }

  /** The header tells the format, the version and the number of functions. */
  lemma {:induction false} HeaderTaken(b: Text)
    requires Decode(b).Ok?
    ensures |b| >= 16 && b[..4] == ['R' as int, 'I' as int, 'S' as int, 'P' as int] && b[4..8] == [23, 0, 0, 0]
    ensures Decode(b).value.value.schemaVersion == 23
    ensures var functions := Decode(b).value.value.functions;
            |functions| < 0x1_0000_0000 && WordBytes(|functions|) == b[8..12]
  {
    hide Decode, FromLittleEndian;
    HeaderRead(b);
    WordIsRead(b[..4]);
    WordIsRead(b[4..8]);
    WordIsRead(b[8..12]);
  }

  lemma {:induction false} FromStep(b: Text)
    requires b != []
    ensures FromLittleEndian(b) == b[0] + 256 * FromLittleEndian(b[1..])
  {
  }

  function Sum4(a: nat, b: nat, c: nat, d: nat): nat { a + 0x100 * (b + 0x100 * (c + 0x100 * d)) }

  lemma {:induction false} WordIsRead(b: Text)
    requires |b| == 4
    ensures FromLittleEndian(b) == Sum4(b[0], b[1], b[2], b[3])
    ensures FromLittleEndian(b) < TWO32 && WordBytes(FromLittleEndian(b)) == b
  {
    hide FromLittleEndian, WordBytes;
    FromStep(b);
    FromStep(b[1..]);
    FromStep(b[2..]);
    FromStep(b[3..]);
    assert b[1..][1..] == b[2..] && b[2..][1..] == b[3..] && b[3..][1..] == [];
    assert FromLittleEndian([]) == 0;
    BytesOfSum(b[0], b[1], b[2], b[3]);
  }

  lemma {:induction false} BytesOfSum(a: u8, b: u8, c: u8, d: u8)
    ensures Sum4(a, b, c, d) < TWO32 && WordBytes(Sum4(a, b, c, d)) == [a, b, c, d]
  {
    var v := Sum4(a, b, c, d);
    LowestByte(a, b + 0x100 * (c + 0x100 * d));
    LowestByte(b, c + 0x100 * d);
    LowestByte(c, d);
    DividedTwice(v);
  }

  lemma {:induction false} DividedTwice(v: nat)
    ensures v / 0x1_0000 == v / 0x100 / 0x100 && v / 0x100_0000 == v / 0x100 / 0x100 / 0x100
  {
  }

  lemma {:induction false} ListsTaken(b: Text, m: Module, entry: Parsed<u32>)
    requires Decode(b).Ok? && Decode(b).value.value == m
    requires ReadU32(b).Ok? && ReadU32(ReadU32(b).value.rest).Ok?
    requires ReadU32(ReadU32(ReadU32(b).value.rest).value.rest).Ok?
    requires ReadU32(ReadU32(ReadU32(ReadU32(b).value.rest).value.rest).value.rest) == Ok(entry)
    ensures EncodeList(m.stringTable, EncodeText).Ok? && EncodeList(m.structLayouts, EncodeLayout).Ok?
    ensures EncodeAll(m.functions, EncodeFunction).Ok? && EncodeList(m.sourceMap, EncodeEntry).Ok?
    ensures (forall f :: f in m.functions ==> GoodFunction(f)) && forall e :: e in m.sourceMap ==> GoodEntry(e)
    ensures Behind(entry.rest,
                   |EncodeList(m.stringTable, EncodeText).value| + |EncodeList(m.structLayouts, EncodeLayout).value|
                   + |EncodeAll(m.functions, EncodeFunction).value| + |EncodeList(m.sourceMap, EncodeEntry).value|,
                   Decode(b).value.rest)
  {
    hide ReadU32, DecodeText, EncodeText, DecodeList, EncodeList, DecodeMany, EncodeAll, DecodeLayout, EncodeLayout,
         DecodeFunction, EncodeFunction, DecodeEntry, EncodeEntry, Behind, GoodFunction, GoodEntry;
    var count := ReadU32(ReadU32(ReadU32(b).value.rest).value.rest).value;
    var strings := DecodeList(DecodeText, entry.rest).value;
    var layouts := DecodeList(DecodeLayout, strings.rest).value;
    var functions := DecodeMany(count.value, DecodeFunction, layouts.rest).value;
    var entries := DecodeList(DecodeEntry, functions.rest).value;
    StringTaken();
    LayoutTaken();
    FunctionTaken();
    EntryTaken();
    ListTaken(DecodeText, EncodeText, Any<Text>, entry.rest);
    ListTaken(DecodeLayout, EncodeLayout, Any<StructLayout>, strings.rest);
    ManyTaken(count.value, DecodeFunction, EncodeFunction, GoodFunction, layouts.rest);
    ListTaken(DecodeEntry, EncodeEntry, GoodEntry, functions.rest);
    var s, l := |EncodeList(strings.value, EncodeText).value|, |EncodeList(layouts.value, EncodeLayout).value|;
    var f, e := |EncodeAll(functions.value, EncodeFunction).value|, |EncodeList(entries.value, EncodeEntry).value|;
    BehindBehind(entry.rest, s, strings.rest, l, layouts.rest);
    BehindBehind(entry.rest, s + l, layouts.rest, f, functions.rest);
    BehindBehind(entry.rest, s + l + f, functions.rest, e, entries.rest);
  }

  /** A module that is accepted can be written again, in as many bytes as it was read from, unless
      its entry is so large that it is taken for negative. */
  lemma {:induction false} AcceptedCanBeWritten(b: Text)
    requires Decode(b).Ok?
    ensures Encode(Decode(b).value.value).Ok? <==> Decode(b).value.value.entryIndex >= 0
    ensures Encode(Decode(b).value.value).Ok? ==> |Encode(Decode(b).value.value).value| + |Decode(b).value.rest| == |b|
    ensures |Decode(b).value.rest| <= |b| && b[|b| - |Decode(b).value.rest|..] == Decode(b).value.rest
  {
    hide DecodeText, EncodeText, DecodeList, EncodeList, DecodeMany, EncodeAll, DecodeLayout, EncodeLayout,
         DecodeFunction, EncodeFunction, DecodeEntry, EncodeEntry, LittleEndian, FromLittleEndian, GoodFunction, GoodEntry;
    var m := Decode(b).value.value;
    var entry := ReadU32(ReadU32(ReadU32(ReadU32(b).value.rest).value.rest).value.rest).value;
    ListsTaken(b, m, entry);
    assert entry.rest == b[16..];
  }

  /** Written again and read again, it is the same module exactly if no field of it is of
      visibility 1; the other conditions of reading back are met by all that is accepted. */
  lemma {:induction false} AcceptedIsStable(b: Text)
    requires Decode(b).Ok? && Decode(b).value.value.entryIndex >= 0
    ensures Encode(Decode(b).value.value).Ok?
    ensures Decode(Encode(Decode(b).value.value).value) == Ok(Parsed(Decode(b).value.value, [])) <==>
            forall l :: l in Decode(b).value.value.structLayouts ==> forall f :: f in l.fields ==> f.visibility != 1
  {
    hide DecodeText, EncodeText, DecodeList, EncodeList, DecodeMany, EncodeAll, DecodeLayout, EncodeLayout,
         DecodeFunction, EncodeFunction, DecodeEntry, EncodeEntry, Encode, GoodFunction, GoodEntry;
    var m := Decode(b).value.value;
    AcceptedCanBeWritten(b);
    FunctionCount(b);
    ListsTaken(b, m, ReadU32(ReadU32(ReadU32(ReadU32(b).value.rest).value.rest).value.rest).value);
    var code := Encode(m).value;
    assert code + [] == code;
    RoundTripExactly(m, code, []);
  }

  /** The words of a field are read loosely: of padding, category and visibility the last byte
      counts, visibility 1 is 2, and any number but 0 is true. */
  lemma {:induction false} FieldIsReadLoosely(
    name: Text, envelope: Text, offset: u32, size: u32, alignment: u32, padding: u32, category: u32, visibility: u32, isStatic: u32, t: Text)
    requires Counts(|name|) && Counts(|envelope|)
    ensures DecodeField(ItemBytes(Chars(name)) + (ItemBytes(Chars(envelope)) +
                        (U32(offset) + (U32(size) + (U32(alignment) + (U32(padding) + (U32(category) + (U32(visibility) + (U32(isStatic) + t))))))))) ==
            Ok(Parsed(StructField(name, envelope, offset, size, alignment, padding % 256, category % 256,
                                  if visibility == 1 then 2 else visibility % 256, isStatic > 0), t))
  {
    hide DecodeText, EncodeText, ReadU32, U32, ItemBytes;
    TextIsWritten(name);
    TextIsWritten(envelope);
    TextUndone(name, ItemBytes(Chars(name)));
    TextUndone(envelope, ItemBytes(Chars(envelope)));
    var s8 := U32(isStatic) + t;
    var s7 := U32(visibility) + s8;
    var s6 := U32(category) + s7;
    var s5 := U32(padding) + s6;
    var s4 := U32(alignment) + s5;
    var s3 := U32(size) + s4;
    var s2 := U32(offset) + s3;
    assert DecodeText(ItemBytes(Chars(envelope)) + s2) == Ok(Parsed(envelope, s2));
    assert DecodeText(ItemBytes(Chars(name)) + (ItemBytes(Chars(envelope)) + s2)) == Ok(Parsed(name, ItemBytes(Chars(envelope)) + s2));
    ReadsU32(offset, s3);
    ReadsU32(size, s4);
    ReadsU32(alignment, s5);
    ReadsU32(padding, s6);
    ReadsU32(category, s7);
    ReadsU32(visibility, s8);
    ReadsU32(isStatic, t);
  }
}
