/** Decoding undoes encoding, exactly when, and at every length. */
module SerializerRoundTrip {
  import opened Ir
  import opened Fallibles
  import opened Serializer

  // ----- what it means to undo -----

  /** `dec`, if it accepts them, takes the bytes of `code` off the front of any bytes, and
      it reads `x` there exactly if `good`. */
  ghost predicate Undoes<T(!new)>(dec: Text -> Result<Parsed<T>>, code: Text, x: T, good: bool) {
    forall t: Text {:trigger dec(code + t)} ::
      && (good ==> dec(code + t) == Ok(Parsed(x, t)))
      && (dec(code + t).Ok? ==> dec(code + t).value.rest == t && (dec(code + t).value.value == x ==> good))
  }

  /** What `dec` reads does not depend on the bytes behind it. */
  ghost predicate Extends<T(!new)>(dec: Text -> Result<Parsed<T>>) {
    forall b: Text, t: Text {:trigger dec(b + t)} ::
      dec(b).Ok? ==> dec(b + t) == Ok(Parsed(dec(b).value.value, dec(b).value.rest + t))
  }

  // ----- integers -----

  lemma {:induction false} ReadsU8(v: u8, t: Text)
    ensures ReadU8([v] + t) == Ok(Parsed(v, t))
  {
    assert ([v] + t)[1..] == t;
  }

  lemma {:induction false} ReadsU32(v: u32, t: Text)
    ensures ReadU32(U32(v) + t) == Ok(Parsed(v, t))
  {
    Widths();
    LittleEndianRoundTrip(v, 4);
    assert (U32(v) + t)[..4] == U32(v) && (U32(v) + t)[4..] == t;
  }

  lemma {:induction false} ReadsU64(v: u64, t: Text)
    ensures ReadU64(U64(v) + t) == Ok(Parsed(v, t))
  {
    Widths();
    LittleEndianRoundTrip(v, 8);
    assert (U64(v) + t)[..8] == U64(v) && (U64(v) + t)[8..] == t;
  }

  lemma {:induction false} IntegersExtend()
    ensures Extends(ReadU8) && Extends(ReadU32) && Extends(ReadU64)
  {
    forall b: Text, t: Text
      ensures |b| >= 1 ==> (b + t)[0] == b[0] && (b + t)[1..] == b[1..] + t
      ensures |b| >= 4 ==> (b + t)[..4] == b[..4] && (b + t)[4..] == b[4..] + t
      ensures |b| >= 8 ==> (b + t)[..8] == b[..8] && (b + t)[8..] == b[8..] + t
    {
    }
  }

  lemma {:induction false} Assoc(a: Text, b: Text, c: Text)
    ensures (a + b) + c == a + (b + c)
  {
  }

  // ----- texts -----

  lemma {:induction false} TextUndone(x: Text, code: Text)
    requires EncodeText(x) == Ok(code)
    ensures Undoes(DecodeText, code, x, true)
  {
    forall t: Text
      ensures DecodeText(code + t) == Ok(Parsed(x, t))
    {
      Assoc(U32(|x|), x, t);
      ReadsU32(|x|, x + t);
      assert (x + t)[..|x|] == x && (x + t)[|x|..] == t;
    }
  }

  lemma {:induction false} TextExtends()
    ensures Extends(DecodeText)
  {
    IntegersExtend();
    forall b: Text, t: Text | DecodeText(b).Ok?
      ensures DecodeText(b + t) == Ok(Parsed(DecodeText(b).value.value, DecodeText(b).value.rest + t))
    {
      var n := ReadU32(b).value;
      assert ReadU32(b + t) == Ok(Parsed(n.value, n.rest + t));
      assert (n.rest + t)[..n.value] == n.rest[..n.value];
      assert (n.rest + t)[n.value..] == n.rest[n.value..] + t;
    }
  }

  // ----- lists -----

  lemma {:induction false} AllUndone<T(!new)>(
    xs: seq<T>, enc: T -> Result<Text>, dec: Text -> Result<Parsed<T>>, good: T -> bool, code: Text, t: Text)
    requires EncodeAll(xs, enc) == Ok(code)
    requires forall x :: x in xs ==> enc(x).Ok? ==> Undoes(dec, enc(x).value, x, good(x))
    ensures (forall x :: x in xs ==> good(x)) ==> DecodeMany(|xs|, dec, code + t) == Ok(Parsed(xs, t))
    ensures var r := DecodeMany(|xs|, dec, code + t);
            r.Ok? ==> r.value.rest == t && (r.value.value == xs ==> forall x :: x in xs ==> good(x))
    decreases |xs|
  {
    if xs == [] {
      assert code + t == t;
    } else {
      var first := enc(xs[0]).value;
      var rest := EncodeAll(xs[1..], enc).value;
      assert xs[0] in xs && forall x :: x in xs[1..] ==> x in xs;
      AllUndone(xs[1..], enc, dec, good, rest, t);
      Assoc(first, rest, t);
      assert xs == [xs[0]] + xs[1..];
    }
  }

  lemma {:induction false} ListUndone<T(!new)>(
    xs: seq<T>, enc: T -> Result<Text>, dec: Text -> Result<Parsed<T>>, good: T -> bool, code: Text, t: Text)
    requires EncodeList(xs, enc) == Ok(code)
    requires forall x :: x in xs ==> enc(x).Ok? ==> Undoes(dec, enc(x).value, x, good(x))
    ensures (forall x :: x in xs ==> good(x)) ==> DecodeList(dec, code + t) == Ok(Parsed(xs, t))
    ensures var r := DecodeList(dec, code + t);
            r.Ok? ==> r.value.rest == t && (r.value.value == xs ==> forall x :: x in xs ==> good(x))
  {
    var all := EncodeAll(xs, enc).value;
    AllUndone(xs, enc, dec, good, all, t);
    Assoc(U32(|xs|), all, t);
    ReadsU32(|xs|, all + t);
  }

  lemma {:induction false} ManyExtends<T(!new)>(n: nat, dec: Text -> Result<Parsed<T>>, b: Text, t: Text)
    requires Extends(dec) && DecodeMany(n, dec, b).Ok?
    ensures DecodeMany(n, dec, b + t) ==
            Ok(Parsed(DecodeMany(n, dec, b).value.value, DecodeMany(n, dec, b).value.rest + t))
    decreases n
  {
    if n > 0 {
      ManyExtends(n - 1, dec, dec(b).value.rest, t);
    }
  }

  lemma {:induction false} ListExtends<T(!new)>(dec: Text -> Result<Parsed<T>>, b: Text, t: Text)
    requires Extends(dec) && DecodeList(dec, b).Ok?
    ensures DecodeList(dec, b + t) == Ok(Parsed(DecodeList(dec, b).value.value, DecodeList(dec, b).value.rest + t))
  {
    IntegersExtend();
    var n := ReadU32(b).value;
    assert ReadU32(b + t) == Ok(Parsed(n.value, n.rest + t));
    ManyExtends(n.value, dec, n.rest, t);
  }

  lemma {:induction false} ManyLength<T>(n: nat, dec: Text -> Result<Parsed<T>>, b: Text)
    requires DecodeMany(n, dec, b).Ok?
    ensures |DecodeMany(n, dec, b).value.value| == n
    decreases n
  {
    if n > 0 {
      ManyLength(n - 1, dec, dec(b).value.rest);
    }
  }

  // ----- which modules survive -----

  /** Visibility 1 is read as 2. */
  predicate GoodField(f: StructField) { f.visibility != 1 }

  predicate GoodLayout(l: StructLayout) { forall f :: f in l.fields ==> GoodField(f) }

  /** Opcodes above HeapRealloc are refused; there is one, FileWriteStringDynamic. */
  predicate GoodInstruction(i: Instruction) { i.op != FILE_WRITE_STRING_DYNAMIC }

  predicate GoodFunction(f: Function) { forall i :: i in f.instructions ==> GoodInstruction(i) }

  predicate GoodEntry(e: SourceMapEntry) { e.provenance <= MAX_PROVENANCE }

  predicate GoodModule(m: Module) {
    && |m.functions| < TWO32
    && (forall l :: l in m.structLayouts ==> GoodLayout(l))
    && (forall f :: f in m.functions ==> GoodFunction(f))
    && (forall e :: e in m.sourceMap ==> GoodEntry(e))
  }

  // ----- decoding undoes encoding, part by part -----

  lemma {:induction false} FieldUndone(x: StructField, code: Text)
    requires EncodeField(x) == Ok(code)
    ensures Undoes(DecodeField, code, x, GoodField(x))
  {
    hide EncodeText, DecodeText, ReadU32, U32;
    var name, envelope := EncodeText(x.name).value, EncodeText(x.envelope).value;
    var s7 := U32(if x.isStatic then 1 else 0);
    var s6 := U32(x.visibility) + s7;
    var s5 := U32(x.category) + s6;
    var s4 := U32(x.paddingKind) + s5;
    var s3 := U32(x.alignmentBytes) + s4;
    var s2 := U32(x.sizeBytes) + s3;
    var s1 := U32(x.offsetBytes) + s2;
    var s0 := envelope + s1;
    TextUndone(x.name, name);
    TextUndone(x.envelope, envelope);
    forall t: Text
      ensures GoodField(x) ==> DecodeField(code + t) == Ok(Parsed(x, t))
      ensures var r := DecodeField(code + t); r.Ok? ==> r.value.rest == t && (r.value.value == x ==> GoodField(x))
    {
      Assoc(name, s0, t);
      Assoc(envelope, s1, t);
      Assoc(U32(x.offsetBytes), s2, t);
      ReadsU32(x.offsetBytes, s2 + t);
      Assoc(U32(x.sizeBytes), s3, t);
      ReadsU32(x.sizeBytes, s3 + t);
      Assoc(U32(x.alignmentBytes), s4, t);
      ReadsU32(x.alignmentBytes, s4 + t);
      Assoc(U32(x.paddingKind), s5, t);
      ReadsU32(x.paddingKind, s5 + t);
      Assoc(U32(x.category), s6, t);
      ReadsU32(x.category, s6 + t);
      Assoc(U32(x.visibility), s7, t);
      ReadsU32(x.visibility, s7 + t);
      ReadsU32(if x.isStatic then 1 else 0, t);
      assert DecodeText(name + (s0 + t)) == Ok(Parsed(x.name, s0 + t));
      assert DecodeText(envelope + (s1 + t)) == Ok(Parsed(x.envelope, s1 + t));
    }
  }

  lemma {:induction false} LayoutUndone(x: StructLayout, code: Text)
    requires EncodeLayout(x) == Ok(code)
    ensures Undoes(DecodeLayout, code, x, GoodLayout(x))
  {
    hide EncodeText, DecodeText, ReadU32, U32, EncodeList, DecodeList, EncodeField, DecodeField;
    var name, fields := EncodeText(x.name).value, EncodeList(x.fields, EncodeField).value;
    var s1 := U32(x.alignmentBytes) + fields;
    var s0 := U32(x.totalSizeBytes) + s1;
    TextUndone(x.name, name);
    forall f | f in x.fields && EncodeField(f).Ok?
      ensures Undoes(DecodeField, EncodeField(f).value, f, GoodField(f))
    {
      FieldUndone(f, EncodeField(f).value);
    }
    forall t: Text
      ensures GoodLayout(x) ==> DecodeLayout(code + t) == Ok(Parsed(x, t))
      ensures var r := DecodeLayout(code + t); r.Ok? ==> r.value.rest == t && (r.value.value == x ==> GoodLayout(x))
    {
      Assoc(name, s0, t);
      Assoc(U32(x.totalSizeBytes), s1, t);
      ReadsU32(x.totalSizeBytes, s1 + t);
      Assoc(U32(x.alignmentBytes), fields, t);
      ReadsU32(x.alignmentBytes, fields + t);
      ListUndone(x.fields, EncodeField, DecodeField, GoodField, fields, t);
      assert DecodeText(name + (s0 + t)) == Ok(Parsed(x.name, s0 + t));
    }
  }

  lemma {:induction false} SlotUndone(x: LocalDebugSlot, code: Text)
    requires EncodeSlot(x) == Ok(code)
    ensures Undoes(DecodeSlot, code, x, true)
  {
    hide EncodeText, DecodeText, ReadU32, U32;
    var name, typeName := EncodeText(x.name).value, EncodeText(x.typeName).value;
    TextUndone(x.name, name);
    TextUndone(x.typeName, typeName);
    forall t: Text
      ensures DecodeSlot(code + t) == Ok(Parsed(x, t))
    {
      Assoc(U32(x.slotIndex), name + typeName, t);
      ReadsU32(x.slotIndex, (name + typeName) + t);
      Assoc(name, typeName, t);
      assert DecodeText(name + (typeName + t)) == Ok(Parsed(x.name, typeName + t));
      assert DecodeText(typeName + t) == Ok(Parsed(x.typeName, t));
    }
  }

  lemma {:induction false} InstructionUndone(x: Instruction, code: Text)
    requires EncodeInstruction(x) == Ok(code)
    ensures Undoes(DecodeInstruction, code, x, GoodInstruction(x))
  {
    hide ReadU8, ReadU32, ReadU64, U32, U64;
    forall t: Text
      ensures GoodInstruction(x) ==> DecodeInstruction(code + t) == Ok(Parsed(x, t))
      ensures var r := DecodeInstruction(code + t); r.Ok? ==> r.value.rest == t && (r.value.value == x ==> GoodInstruction(x))
    {
      var s := U64(x.imm) + U32(x.debugId);
      Assoc([x.op], s, t);
      ReadsU8(x.op, s + t);
      Assoc(U64(x.imm), U32(x.debugId), t);
      ReadsU64(x.imm, U32(x.debugId) + t);
      ReadsU32(x.debugId, t);
    }
  }

  lemma {:induction false} FunctionUndone(x: Function, code: Text)
    requires EncodeFunction(x) == Ok(code)
    ensures Undoes(DecodeFunction, code, x, GoodFunction(x))
  {
    hide EncodeText, DecodeText, ReadU32, ReadU64, U32, U64, EncodeList, DecodeList, EncodeSlot, DecodeSlot,
         EncodeInstruction, DecodeInstruction;
    var name := EncodeText(x.name).value;
    var slots := EncodeList(x.localDebugSlots, EncodeSlot).value;
    var instructions := EncodeList(x.instructions, EncodeInstruction).value;
    var s5 := slots + instructions;
    var s4 := U32(x.parameterCount) + s5;
    var s3 := U32(x.metadata.instrumentationFlags) + s4;
    var s2 := U32(x.metadata.schedulingScope) + s3;
    var s1 := U64(x.metadata.capabilityMask) + s2;
    var s0 := U64(x.metadata.effectMask) + s1;
    TextUndone(x.name, name);
    forall s | s in x.localDebugSlots && EncodeSlot(s).Ok?
      ensures Undoes(DecodeSlot, EncodeSlot(s).value, s, true)
    {
      SlotUndone(s, EncodeSlot(s).value);
    }
    forall i | i in x.instructions && EncodeInstruction(i).Ok?
      ensures Undoes(DecodeInstruction, EncodeInstruction(i).value, i, GoodInstruction(i))
    {
      InstructionUndone(i, EncodeInstruction(i).value);
    }
    forall t: Text
      ensures GoodFunction(x) ==> DecodeFunction(code + t) == Ok(Parsed(x, t))
      ensures var r := DecodeFunction(code + t); r.Ok? ==> r.value.rest == t && (r.value.value == x ==> GoodFunction(x))
    {
      Assoc(name, s0, t);
      Assoc(U64(x.metadata.effectMask), s1, t);
      ReadsU64(x.metadata.effectMask, s1 + t);
      Assoc(U64(x.metadata.capabilityMask), s2, t);
      ReadsU64(x.metadata.capabilityMask, s2 + t);
      Assoc(U32(x.metadata.schedulingScope), s3, t);
      ReadsU32(x.metadata.schedulingScope, s3 + t);
      Assoc(U32(x.metadata.instrumentationFlags), s4, t);
      ReadsU32(x.metadata.instrumentationFlags, s4 + t);
      Assoc(U32(x.parameterCount), s5, t);
      ReadsU32(x.parameterCount, s5 + t);
      Assoc(slots, instructions, t);
      ListUndone(x.localDebugSlots, EncodeSlot, DecodeSlot, _ => true, slots, instructions + t);
      ListUndone(x.instructions, EncodeInstruction, DecodeInstruction, GoodInstruction, instructions, t);
      assert DecodeText(name + (s0 + t)) == Ok(Parsed(x.name, s0 + t));
    }
  }

  lemma {:induction false} EntryUndone(x: SourceMapEntry, code: Text)
    requires EncodeEntry(x) == Ok(code)
    ensures Undoes(DecodeEntry, code, x, GoodEntry(x))
  {
    hide EncodeText, DecodeText, ReadU8, ReadU32, U32;
    var unit := EncodeText(x.sourceUnit).value;
    var s2 := [x.provenance] + unit;
    var s1 := U32(x.column) + s2;
    var s0 := U32(x.line) + s1;
    TextUndone(x.sourceUnit, unit);
    forall t: Text
      ensures GoodEntry(x) ==> DecodeEntry(code + t) == Ok(Parsed(x, t))
      ensures var r := DecodeEntry(code + t); r.Ok? ==> r.value.rest == t && (r.value.value == x ==> GoodEntry(x))
    {
      Assoc(U32(x.debugId), s0, t);
      ReadsU32(x.debugId, s0 + t);
      Assoc(U32(x.line), s1, t);
      ReadsU32(x.line, s1 + t);
      Assoc(U32(x.column), s2, t);
      ReadsU32(x.column, s2 + t);
      Assoc([x.provenance], unit, t);
      ReadsU8(x.provenance, unit + t);
      assert DecodeText(unit + t) == Ok(Parsed(x.sourceUnit, t));
    }
  }

  /** The lists of a module, read back one after the other. */
  lemma {:induction false} ListsUndone(m: Module, strings: Text, layouts: Text, functions: Text, entries: Text, t: Text)
    requires EncodeList(m.stringTable, EncodeText) == Ok(strings)
    requires EncodeList(m.structLayouts, EncodeLayout) == Ok(layouts)
    requires EncodeAll(m.functions, EncodeFunction) == Ok(functions)
    requires EncodeList(m.sourceMap, EncodeEntry) == Ok(entries)
    ensures DecodeList(DecodeText, strings + (layouts + (functions + (entries + t)))) ==
            Ok(Parsed(m.stringTable, layouts + (functions + (entries + t))))
    ensures var r := DecodeList(DecodeLayout, layouts + (functions + (entries + t)));
            && ((forall l :: l in m.structLayouts ==> GoodLayout(l)) ==>
                  r == Ok(Parsed(m.structLayouts, functions + (entries + t))))
            && (r.Ok? ==> && r.value.rest == functions + (entries + t)
                          && (r.value.value == m.structLayouts ==> forall l :: l in m.structLayouts ==> GoodLayout(l)))
    ensures var r := DecodeMany(|m.functions|, DecodeFunction, functions + (entries + t));
            && ((forall f :: f in m.functions ==> GoodFunction(f)) ==> r == Ok(Parsed(m.functions, entries + t)))
            && (r.Ok? ==> && r.value.rest == entries + t
                          && (r.value.value == m.functions ==> forall f :: f in m.functions ==> GoodFunction(f)))
    ensures var r := DecodeList(DecodeEntry, entries + t);
            && ((forall e :: e in m.sourceMap ==> GoodEntry(e)) ==> r == Ok(Parsed(m.sourceMap, t)))
            && (r.Ok? ==> && r.value.rest == t
                          && (r.value.value == m.sourceMap ==> forall e :: e in m.sourceMap ==> GoodEntry(e)))
  {
    hide EncodeText, DecodeText, EncodeList, DecodeList, EncodeAll, DecodeMany, EncodeLayout, DecodeLayout,
         EncodeFunction, DecodeFunction, EncodeEntry, DecodeEntry, GoodLayout, GoodFunction, GoodEntry;
    forall x | x in m.stringTable && EncodeText(x).Ok?
      ensures Undoes(DecodeText, EncodeText(x).value, x, true)
    {
      TextUndone(x, EncodeText(x).value);
    }
    ListUndone(m.stringTable, EncodeText, DecodeText, _ => true, strings, layouts + (functions + (entries + t)));
    forall x | x in m.structLayouts && EncodeLayout(x).Ok?
      ensures Undoes(DecodeLayout, EncodeLayout(x).value, x, GoodLayout(x))
    {
      LayoutUndone(x, EncodeLayout(x).value);
    }
    ListUndone(m.structLayouts, EncodeLayout, DecodeLayout, GoodLayout, layouts, functions + (entries + t));
    forall x | x in m.functions && EncodeFunction(x).Ok?
      ensures Undoes(DecodeFunction, EncodeFunction(x).value, x, GoodFunction(x))
    {
      FunctionUndone(x, EncodeFunction(x).value);
    }
    AllUndone(m.functions, EncodeFunction, DecodeFunction, GoodFunction, functions, entries + t);
    forall x | x in m.sourceMap && EncodeEntry(x).Ok?
      ensures Undoes(DecodeEntry, EncodeEntry(x).value, x, GoodEntry(x))
    {
      EntryUndone(x, EncodeEntry(x).value);
    }
    ListUndone(m.sourceMap, EncodeEntry, DecodeEntry, GoodEntry, entries, t);
  }

  lemma {:induction false} ModuleUndone(m: Module, code: Text, t: Text)
    requires Encode(m) == Ok(code) && |m.functions| < TWO32
    ensures GoodModule(m) ==> Decode(code + t) == Ok(Parsed(m, t))
    ensures var r := Decode(code + t); r.Ok? ==> r.value.rest == t && (r.value.value == m ==> GoodModule(m))
  {
    hide ReadU32, U32, EncodeText, DecodeText, EncodeList, DecodeList, EncodeAll, DecodeMany, EncodeLayout, DecodeLayout,
         EncodeFunction, DecodeFunction, EncodeEntry, DecodeEntry, GoodLayout, GoodFunction, GoodEntry;
    var strings := EncodeList(m.stringTable, EncodeText).value;
    var layouts := EncodeList(m.structLayouts, EncodeLayout).value;
    var functions := EncodeAll(m.functions, EncodeFunction).value;
    var entries := EncodeList(m.sourceMap, EncodeEntry).value;
    ListsUndone(m, strings, layouts, functions, entries, t);
    var s5 := functions + entries;
    var s4 := layouts + s5;
    var s3 := strings + s4;
    var s2 := U32(m.entryIndex) + s3;
    var s1 := U32(|m.functions|) + s2;
    var s0 := U32(SCHEMA_VERSION) + s1;
    Assoc(U32(SCHEMA_MAGIC), s0, t);
    ReadsU32(SCHEMA_MAGIC, s0 + t);
    Assoc(U32(SCHEMA_VERSION), s1, t);
    ReadsU32(SCHEMA_VERSION, s1 + t);
    Assoc(U32(|m.functions|), s2, t);
    ReadsU32(|m.functions|, s2 + t);
    Assoc(U32(m.entryIndex), s3, t);
    ReadsU32(m.entryIndex, s3 + t);
    Assoc(strings, s4, t);
    Assoc(layouts, s5, t);
    Assoc(functions, entries, t);
  }

  /** Serialization round-trips, with any bytes behind it, exactly for the good modules. */
  lemma {:induction false} RoundTripExactly(m: Module, code: Text, t: Text)
    requires Encode(m) == Ok(code)
    ensures Decode(code + t) == Ok(Parsed(m, t)) <==> GoodModule(m)
  {
    hide EncodeText, DecodeText, EncodeList, DecodeList, EncodeAll, DecodeMany, EncodeLayout, DecodeLayout,
         EncodeFunction, DecodeFunction, EncodeEntry, DecodeEntry, GoodLayout, GoodFunction, GoodEntry;
    if |m.functions| < TWO32 {
      ModuleUndone(m, code, t);
    } else if Decode(code + t).Ok? {
      FunctionCount(code + t);
    }
  }

  lemma {:induction false} FunctionCount(b: Text)
    requires Decode(b).Ok?
    ensures |Decode(b).value.value.functions| < TWO32
  {
    hide EncodeText, DecodeText, DecodeList, DecodeMany, DecodeLayout, DecodeFunction, DecodeEntry;
    var version := ReadU32(ReadU32(b).value.rest).value;
    var count := ReadU32(version.rest).value;
    var entry := ReadU32(count.rest).value;
    var strings := DecodeList(DecodeText, entry.rest).value;
    var layouts := DecodeList(DecodeLayout, strings.rest).value;
    ManyLength(count.value, DecodeFunction, layouts.rest);
  }

  // ----- truncation -----

  lemma {:induction false} FieldExtends()
    ensures Extends(DecodeField)
  {
    hide DecodeText, ReadU32;
    IntegersExtend();
    TextExtends();
    forall b: Text, t: Text | DecodeField(b).Ok?
      ensures DecodeField(b + t) == Ok(Parsed(DecodeField(b).value.value, DecodeField(b).value.rest + t))
    {
      var name := DecodeText(b).value;
      var envelope := DecodeText(name.rest).value;
      var offset := ReadU32(envelope.rest).value;
      var size := ReadU32(offset.rest).value;
      var alignment := ReadU32(size.rest).value;
      var padding := ReadU32(alignment.rest).value;
      var category := ReadU32(padding.rest).value;
      var visibility := ReadU32(category.rest).value;
      assert DecodeText(b + t) == Ok(Parsed(name.value, name.rest + t));
      assert DecodeText(name.rest + t) == Ok(Parsed(envelope.value, envelope.rest + t));
      assert ReadU32(envelope.rest + t) == Ok(Parsed(offset.value, offset.rest + t));
      assert ReadU32(offset.rest + t) == Ok(Parsed(size.value, size.rest + t));
      assert ReadU32(size.rest + t) == Ok(Parsed(alignment.value, alignment.rest + t));
      assert ReadU32(alignment.rest + t) == Ok(Parsed(padding.value, padding.rest + t));
      assert ReadU32(padding.rest + t) == Ok(Parsed(category.value, category.rest + t));
      assert ReadU32(category.rest + t) == Ok(Parsed(visibility.value, visibility.rest + t));
    }
  }

  lemma {:induction false} LayoutExtends()
    ensures Extends(DecodeLayout)
  {
    hide DecodeText, ReadU32, DecodeList, DecodeField;
    IntegersExtend();
    TextExtends();
    FieldExtends();
    forall b: Text, t: Text | DecodeLayout(b).Ok?
      ensures DecodeLayout(b + t) == Ok(Parsed(DecodeLayout(b).value.value, DecodeLayout(b).value.rest + t))
    {
      var name := DecodeText(b).value;
      var total := ReadU32(name.rest).value;
      var alignment := ReadU32(total.rest).value;
      assert DecodeText(b + t) == Ok(Parsed(name.value, name.rest + t));
      assert ReadU32(name.rest + t) == Ok(Parsed(total.value, total.rest + t));
      assert ReadU32(total.rest + t) == Ok(Parsed(alignment.value, alignment.rest + t));
      ListExtends(DecodeField, alignment.rest, t);
    }
  }

  lemma {:induction false} SlotExtends()
    ensures Extends(DecodeSlot)
  {
    hide DecodeText, ReadU32;
    IntegersExtend();
    TextExtends();
    forall b: Text, t: Text | DecodeSlot(b).Ok?
      ensures DecodeSlot(b + t) == Ok(Parsed(DecodeSlot(b).value.value, DecodeSlot(b).value.rest + t))
    {
      var slot := ReadU32(b).value;
      var name := DecodeText(slot.rest).value;
      assert ReadU32(b + t) == Ok(Parsed(slot.value, slot.rest + t));
      assert DecodeText(slot.rest + t) == Ok(Parsed(name.value, name.rest + t));
    }
  }

  lemma {:induction false} InstructionExtends()
    ensures Extends(DecodeInstruction)
  {
    hide ReadU8, ReadU32, ReadU64;
    IntegersExtend();
    forall b: Text, t: Text | DecodeInstruction(b).Ok?
      ensures DecodeInstruction(b + t) ==
              Ok(Parsed(DecodeInstruction(b).value.value, DecodeInstruction(b).value.rest + t))
    {
      var op := ReadU8(b).value;
      var imm := ReadU64(op.rest).value;
      assert ReadU8(b + t) == Ok(Parsed(op.value, op.rest + t));
      assert ReadU64(op.rest + t) == Ok(Parsed(imm.value, imm.rest + t));
      assert ReadU32(imm.rest + t).Ok?;
    }
  }

  lemma {:induction false} FunctionExtends()
    ensures Extends(DecodeFunction)
  {
    hide DecodeText, ReadU32, ReadU64, DecodeList, DecodeSlot, DecodeInstruction;
    IntegersExtend();
    TextExtends();
    SlotExtends();
    InstructionExtends();
    forall b: Text, t: Text | DecodeFunction(b).Ok?
      ensures DecodeFunction(b + t) == Ok(Parsed(DecodeFunction(b).value.value, DecodeFunction(b).value.rest + t))
    {
      var name := DecodeText(b).value;
      var effects := ReadU64(name.rest).value;
      var capabilities := ReadU64(effects.rest).value;
      var scope := ReadU32(capabilities.rest).value;
      var flags := ReadU32(scope.rest).value;
      var parameters := ReadU32(flags.rest).value;
      var slots := DecodeList(DecodeSlot, parameters.rest).value;
      assert DecodeText(b + t) == Ok(Parsed(name.value, name.rest + t));
      assert ReadU64(name.rest + t) == Ok(Parsed(effects.value, effects.rest + t));
      assert ReadU64(effects.rest + t) == Ok(Parsed(capabilities.value, capabilities.rest + t));
      assert ReadU32(capabilities.rest + t) == Ok(Parsed(scope.value, scope.rest + t));
      assert ReadU32(scope.rest + t) == Ok(Parsed(flags.value, flags.rest + t));
      assert ReadU32(flags.rest + t) == Ok(Parsed(parameters.value, parameters.rest + t));
      ListExtends(DecodeSlot, parameters.rest, t);
      ListExtends(DecodeInstruction, slots.rest, t);
    }
  }

  lemma {:induction false} EntryExtends()
    ensures Extends(DecodeEntry)
  {
    hide DecodeText, ReadU8, ReadU32;
    IntegersExtend();
    TextExtends();
    forall b: Text, t: Text | DecodeEntry(b).Ok?
      ensures DecodeEntry(b + t) == Ok(Parsed(DecodeEntry(b).value.value, DecodeEntry(b).value.rest + t))
    {
      var debugId := ReadU32(b).value;
      var line := ReadU32(debugId.rest).value;
      var column := ReadU32(line.rest).value;
      var provenance := ReadU8(column.rest).value;
      assert ReadU32(b + t) == Ok(Parsed(debugId.value, debugId.rest + t));
      assert ReadU32(debugId.rest + t) == Ok(Parsed(line.value, line.rest + t));
      assert ReadU32(line.rest + t) == Ok(Parsed(column.value, column.rest + t));
      assert ReadU8(column.rest + t) == Ok(Parsed(provenance.value, provenance.rest + t));
      assert DecodeText(provenance.rest + t).Ok?;
    }
  }

  /** What is accepted stays accepted, as the same module, when bytes are appended. */
  lemma {:induction false} ModuleExtends(b: Text, t: Text)
    requires Decode(b).Ok?
    ensures Decode(b + t) == Ok(Parsed(Decode(b).value.value, Decode(b).value.rest + t))
  {
    hide ReadU32, DecodeText, DecodeList, DecodeMany, DecodeLayout, DecodeFunction, DecodeEntry;
    IntegersExtend();
    TextExtends();
    LayoutExtends();
    FunctionExtends();
    EntryExtends();
    var magic := ReadU32(b).value;
    var version := ReadU32(magic.rest).value;
    var count := ReadU32(version.rest).value;
    var entry := ReadU32(count.rest).value;
    var strings := DecodeList(DecodeText, entry.rest).value;
    var layouts := DecodeList(DecodeLayout, strings.rest).value;
    var functions := DecodeMany(count.value, DecodeFunction, layouts.rest).value;
    assert ReadU32(b + t) == Ok(Parsed(magic.value, magic.rest + t));
    assert ReadU32(magic.rest + t) == Ok(Parsed(version.value, version.rest + t));
    assert ReadU32(version.rest + t) == Ok(Parsed(count.value, count.rest + t));
    assert ReadU32(count.rest + t) == Ok(Parsed(entry.value, entry.rest + t));
    ListExtends(DecodeText, entry.rest, t);
    ListExtends(DecodeLayout, strings.rest, t);
    ManyExtends(count.value, DecodeFunction, layouts.rest, t);
    ListExtends(DecodeEntry, functions.rest, t);
  }

  /** No strict prefix of a serialized module is accepted, wherever it is cut. */
  lemma {:induction false} PrefixesAreRejected(m: Module, code: Text, k: nat)
    requires Encode(m) == Ok(code) && |m.functions| < TWO32 && k < |code|
    ensures Decode(code[..k]).Err?
  {
    hide Encode, Decode;
    if Decode(code[..k]).Ok? {
      ModuleExtends(code[..k], code[k..]);
      assert code[..k] + code[k..] == code && code + [] == code;
      ModuleUndone(m, code, []);
      assert false;
    }
  }

  lemma {:induction false} EncodeOne<T>(x: T, enc: T -> Result<Text>)
    ensures EncodeAll([x], enc).Ok? <==> enc(x).Ok?
  {
    assert [x][1..] == [];
    assert EncodeAll([], enc) == Ok([]);
  }

  const DynamicWrite: Module :=
    Module(SCHEMA_VERSION,
           [Function([], Metadata(0, 0, 0, 0), 0, [], [Instruction(FILE_WRITE_STRING_DYNAMIC, 0, 0)])],
           0, [], [], [])

  /** A module that the encoder accepts and the decoder does not give back. */
  lemma {:induction false} DynamicWriteIsLost()
    ensures Encode(DynamicWrite).Ok? && Decode(Encode(DynamicWrite).value) != Ok(Parsed(DynamicWrite, []))
  {
    hide Decode, DecodeList, DecodeMany, LittleEndian;
    var f := DynamicWrite.functions[0];
    EncodeOne(f.instructions[0], EncodeInstruction);
    assert f.instructions == [f.instructions[0]];
    assert EncodeFunction(f).Ok?;
    EncodeOne(f, EncodeFunction);
    assert DynamicWrite.functions == [f];
    var code := Encode(DynamicWrite).value;
    RoundTripExactly(DynamicWrite, code, []);
    assert code + [] == code;
    assert f in DynamicWrite.functions && f.instructions[0] in f.instructions;
  }

  // ----- more functions than the count can tell -----

  lemma {:induction false} CopiesEncode(f: Function, xs: seq<Function>)
    requires EncodeFunction(f).Ok? && forall x :: x in xs ==> x == f
    ensures EncodeAll(xs, EncodeFunction).Ok?
    ensures xs != [] ==> EncodeFunction(f).value <= EncodeAll(xs, EncodeFunction).value
  {
    hide EncodeFunction;
    if xs != [] {
      assert xs[0] in xs && forall x :: x in xs[1..] ==> x in xs;
      CopiesEncode(f, xs[1..]);
    }
  }

  lemma {:induction false} NamelessBegins(f: Function)
    requires EncodeFunction(f).Ok? && f.name == []
    ensures U32(0) <= EncodeFunction(f).value
  {
    hide LittleEndian, EncodeList;
    assert EncodeText(f.name).value == U32(0) + [] == U32(0);
  }

  /** A module of one nameless function, without a source map. */
  predicate IsSmall(m: Module) {
    |m.functions| == 1 && m.functions[0].name == [] && m.sourceMap == [] && Encode(m).Ok? && GoodModule(m)
  }

  /** The same with 2^32 more copies of its function. */
  function Multiply(m: Module): Module
    requires |m.functions| == 1
  {
    m.(functions := m.functions + seq(TWO32, _ => m.functions[0]))
  }

  lemma {:induction false} MultipliedFunctions(m: Module)
    requires IsSmall(m)
    ensures EncodeFunction(m.functions[0]).Ok?
    ensures var f := EncodeFunction(m.functions[0]).value;
            && EncodeAll(m.functions, EncodeFunction) == Ok(f + [])
            && EncodeAll(Multiply(m).functions, EncodeFunction).Ok?
            && f + U32(0) <= EncodeAll(Multiply(m).functions, EncodeFunction).value
  {
    hide EncodeFunction, GoodModule, EncodeList;
    var f := m.functions[0];
    assert m.functions == [f] && [f][1..] == [];
    assert EncodeAll(m.functions, EncodeFunction).Ok?;
    var more := seq(TWO32, _ => f);
    assert Multiply(m).functions[1..] == more && more != [];
    CopiesEncode(f, more);
    NamelessBegins(f);
    var code, rest := EncodeFunction(f).value, EncodeAll(more, EncodeFunction).value;
    assert U32(0) <= rest;
    assert rest == U32(0) + rest[|U32(0)|..];
    assert code + rest == (code + U32(0)) + rest[|U32(0)|..];
  }

  lemma {:induction false} NoEntries()
    ensures EncodeList<SourceMapEntry>([], EncodeEntry) == Ok(U32(0))
  {
    hide LittleEndian;
    assert U32(0) + [] == U32(0);
  }

  /** The encoder writes the number of functions modulo 2^32. With 2^32 + 1 functions it writes 1,
      and a strict prefix of the bytes is accepted, as the module of the first function alone. */
  lemma {:induction false} HugeModulesAreCut(m: Module)
    requires IsSmall(m)
    ensures Encode(Multiply(m)).Ok?
    ensures var small, huge := Encode(m).value, Encode(Multiply(m)).value;
            |small| < |huge| && huge[..|small|] == small && Decode(huge[..|small|]) == Ok(Parsed(m, []))
  {
    hide Decode, EncodeFunction, LittleEndian, EncodeList, EncodeAll, GoodModule;
    MultipliedFunctions(m);
    NoEntries();
    var f := EncodeFunction(m.functions[0]).value;
    var all := EncodeAll(Multiply(m).functions, EncodeFunction).value;
    var strings, layouts := EncodeList(m.stringTable, EncodeText).value, EncodeList(m.structLayouts, EncodeLayout).value;
    var head := U32(SCHEMA_MAGIC) + (U32(SCHEMA_VERSION) + (U32(1) + (U32(m.entryIndex) + (strings + layouts))));
    var small, huge := Encode(m).value, Encode(Multiply(m)).value;
    assert |Multiply(m).functions| % TWO32 == 1;
    assert small == head + (f + U32(0));
    assert all == (f + U32(0)) + all[|f + U32(0)|..];
    assert huge == head + (all + U32(0));
    assert huge == (head + (f + U32(0))) + (all[|f + U32(0)|..] + U32(0));
    RoundTripExactly(m, small, []);
    assert small + [] == small;
  }
}
