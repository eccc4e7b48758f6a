/** The serializer and deserializer as they run: bytes pushed to a buffer, and an offset
    advanced through one. */
module SerializerMethod {
  import opened Ir
  import opened Fallibles
  import opened Serializer

  // ----- writing -----

  /** The buffer after `r` has been appended to `out`. */
  function Append(out: Text, r: Result<Text>): Result<Text> {
    match r
    case Ok(code) => Ok(out + code)
    case Err(e) => Err(e)
  }

  lemma {:induction false} AppendNext<T>(out: Text, xs: seq<T>, enc: T -> Result<Text>, i: nat)
    requires i < |xs|
    ensures Append(out, EncodeAll(xs[i..], enc)) ==
            match enc(xs[i])
            case Ok(code) => Append(out + code, EncodeAll(xs[i + 1..], enc))
            case Err(e) => Err(e)
  {
    assert xs[i..][0] == xs[i] && xs[i..][1..] == xs[i + 1..];
    if enc(xs[i]).Ok? && EncodeAll(xs[i + 1..], enc).Ok? {
      assert out + (enc(xs[i]).value + EncodeAll(xs[i + 1..], enc).value) ==
             out + enc(xs[i]).value + EncodeAll(xs[i + 1..], enc).value;
    }
  }

  method AppendU32(out: Text, v: u32) returns (r: Text)
    ensures r == out + U32(v)
  {
    r := out + [v % 256];
    r := r + [v / 0x100 % 256];
    r := r + [v / 0x1_0000 % 256];
    r := r + [v / 0x100_0000 % 256];
    assert LittleEndian(v / 0x100_0000, 1) == [v / 0x100_0000 % 256];
    assert LittleEndian(v / 0x1_0000, 2) == [v / 0x1_0000 % 256, v / 0x100_0000 % 256];
    assert LittleEndian(v / 0x100, 3) == [v / 0x100 % 256, v / 0x1_0000 % 256, v / 0x100_0000 % 256];
  }

  method AppendU64(out: Text, v: u64) returns (r: Text)
    ensures r == out + U64(v)
  {
    r := out;
    var rest: nat := v;
    for k := 0 to 8
      invariant out + U64(v) == r + LittleEndian(rest, 8 - k)
    {
      r := r + [rest % 256];
      rest := rest / 256;
    }
  }

  method AppendText(out: Text, t: Text) returns (r: Result<Text>)
    ensures r == Append(out, EncodeText(t))
  {
    if |t| >= TWO32 {
      return Err(TooLong);
    }
    var bytes := AppendU32(out, |t|);
    assert out + U32(|t|) + t == out + (U32(|t|) + t);
    return Ok(bytes + t);
  }

  method AppendField(out: Text, f: StructField) returns (r: Result<Text>)
    ensures r == Append(out, EncodeField(f))
  {
    hide EncodeText, U32;
    var name := AppendText(out, f.name);
    if name.Err? { return name; }
    var envelope := AppendText(name.value, f.envelope);
    if envelope.Err? { return envelope; }
    var bytes := AppendU32(envelope.value, f.offsetBytes);
    bytes := AppendU32(bytes, f.sizeBytes);
    bytes := AppendU32(bytes, f.alignmentBytes);
    bytes := AppendU32(bytes, f.paddingKind);
    bytes := AppendU32(bytes, f.category);
    bytes := AppendU32(bytes, f.visibility);
    bytes := AppendU32(bytes, if f.isStatic then 1 else 0);
    assert bytes == out + EncodeField(f).value;
    return Ok(bytes);
  }

  method AppendFields(out: Text, fields: seq<StructField>) returns (r: Result<Text>)
    ensures r == Append(out, EncodeList(fields, EncodeField))
  {
    hide EncodeField, U32;
    if |fields| >= TWO32 {
      return Err(TooMany);
    }
    var bytes := AppendU32(out, |fields|);
    ghost var start := bytes;
    for i := 0 to |fields|
      invariant Append(start, EncodeAll(fields[0..], EncodeField)) == Append(bytes, EncodeAll(fields[i..], EncodeField))
    {
      AppendNext(bytes, fields, EncodeField, i);
      var next := AppendField(bytes, fields[i]);
      if next.Err? {
        assert fields[0..] == fields;
        return next;
      }
      bytes := next.value;
    }
    Finish(out, fields, EncodeField, bytes);
    return Ok(bytes);
  }

  lemma {:induction false} Finish<T>(out: Text, xs: seq<T>, enc: T -> Result<Text>, bytes: Text)
    requires |xs| < TWO32
    requires Append(out + U32(|xs|), EncodeAll(xs[0..], enc)) == Append(bytes, EncodeAll(xs[|xs|..], enc))
    ensures Append(out, EncodeList(xs, enc)) == Ok(bytes)
  {
    assert xs[0..] == xs && bytes + [] == bytes;
    var all := EncodeAll(xs, enc).value;
    assert out + U32(|xs|) + all == out + (U32(|xs|) + all);
  }

  method AppendTexts(out: Text, texts: seq<Text>) returns (r: Result<Text>)
    ensures r == Append(out, EncodeList(texts, EncodeText))
  {
    hide EncodeText, U32;
    if |texts| >= TWO32 {
      return Err(TooMany);
    }
    var bytes := AppendU32(out, |texts|);
    ghost var start := bytes;
    for i := 0 to |texts|
      invariant Append(start, EncodeAll(texts[0..], EncodeText)) == Append(bytes, EncodeAll(texts[i..], EncodeText))
    {
      AppendNext(bytes, texts, EncodeText, i);
      var next := AppendText(bytes, texts[i]);
      if next.Err? {
        assert texts[0..] == texts;
        return next;
      }
      bytes := next.value;
    }
    Finish(out, texts, EncodeText, bytes);
    return Ok(bytes);
  }

  method AppendLayout(out: Text, l: StructLayout) returns (r: Result<Text>)
    ensures r == Append(out, EncodeLayout(l))
  {
    hide EncodeText, U32, EncodeList, EncodeField;
    var name := AppendText(out, l.name);
    if name.Err? { return name; }
    var bytes := AppendU32(name.value, l.totalSizeBytes);
    bytes := AppendU32(bytes, l.alignmentBytes);
    var fields := AppendFields(bytes, l.fields);
    if fields.Err? { return fields; }
    assert fields.value == out + EncodeLayout(l).value;
    return fields;
  }

  method AppendLayouts(out: Text, layouts: seq<StructLayout>) returns (r: Result<Text>)
    ensures r == Append(out, EncodeList(layouts, EncodeLayout))
  {
    hide EncodeLayout, U32;
    if |layouts| >= TWO32 {
      return Err(TooMany);
    }
    var bytes := AppendU32(out, |layouts|);
    ghost var start := bytes;
    for i := 0 to |layouts|
      invariant Append(start, EncodeAll(layouts[0..], EncodeLayout)) == Append(bytes, EncodeAll(layouts[i..], EncodeLayout))
    {
      AppendNext(bytes, layouts, EncodeLayout, i);
      var next := AppendLayout(bytes, layouts[i]);
      if next.Err? {
        assert layouts[0..] == layouts;
        return next;
      }
      bytes := next.value;
    }
    Finish(out, layouts, EncodeLayout, bytes);
    return Ok(bytes);
  }

  method AppendSlots(out: Text, slots: seq<LocalDebugSlot>) returns (r: Result<Text>)
    ensures r == Append(out, EncodeList(slots, EncodeSlot))
  {
    hide EncodeText, U32;
    if |slots| >= TWO32 {
      return Err(TooMany);
    }
    var bytes := AppendU32(out, |slots|);
    ghost var start := bytes;
    for i := 0 to |slots|
      invariant Append(start, EncodeAll(slots[0..], EncodeSlot)) == Append(bytes, EncodeAll(slots[i..], EncodeSlot))
    {
      AppendNext(bytes, slots, EncodeSlot, i);
      ghost var before := bytes;
      assert slots[0..] == slots;
      bytes := AppendU32(bytes, slots[i].slotIndex);
      var name := AppendText(bytes, slots[i].name);
      if name.Err? { return name; }
      var typeName := AppendText(name.value, slots[i].typeName);
      if typeName.Err? { return typeName; }
      bytes := typeName.value;
      assert bytes == before + EncodeSlot(slots[i]).value;
    }
    Finish(out, slots, EncodeSlot, bytes);
    return Ok(bytes);
  }

  method AppendInstructions(out: Text, body: Body) returns (r: Result<Text>)
    ensures r == Append(out, EncodeList(body, EncodeInstruction))
  {
    hide U32, U64;
    if |body| >= TWO32 {
      return Err(TooMany);
    }
    var bytes := AppendU32(out, |body|);
    ghost var start := bytes;
    for i := 0 to |body|
      invariant Append(start, EncodeAll(body[0..], EncodeInstruction)) == Append(bytes, EncodeAll(body[i..], EncodeInstruction))
    {
      AppendNext(bytes, body, EncodeInstruction, i);
      ghost var before := bytes;
      bytes := bytes + [body[i].op];
      bytes := AppendU64(bytes, body[i].imm);
      bytes := AppendU32(bytes, body[i].debugId);
      assert bytes == before + EncodeInstruction(body[i]).value;
    }
    Finish(out, body, EncodeInstruction, bytes);
    return Ok(bytes);
  }

  method AppendFunction(out: Text, f: Function) returns (r: Result<Text>)
    ensures r == Append(out, EncodeFunction(f))
  {
    hide EncodeText, U32, U64, EncodeList;
    var name := AppendText(out, f.name);
    if name.Err? { return name; }
    var bytes := AppendU64(name.value, f.metadata.effectMask);
    bytes := AppendU64(bytes, f.metadata.capabilityMask);
    bytes := AppendU32(bytes, f.metadata.schedulingScope);
    bytes := AppendU32(bytes, f.metadata.instrumentationFlags);
    bytes := AppendU32(bytes, f.parameterCount);
    var slots := AppendSlots(bytes, f.localDebugSlots);
    if slots.Err? { return slots; }
    var instructions := AppendInstructions(slots.value, f.instructions);
    if instructions.Err? { return instructions; }
    assert instructions.value == out + EncodeFunction(f).value;
    return instructions;
  }

  method AppendFunctions(out: Text, functions: seq<Function>) returns (r: Result<Text>)
    ensures r == Append(out, EncodeAll(functions, EncodeFunction))
  {
    hide EncodeFunction;
    var bytes := out;
    assert functions[0..] == functions;
    for i := 0 to |functions|
      invariant Append(out, EncodeAll(functions, EncodeFunction)) == Append(bytes, EncodeAll(functions[i..], EncodeFunction))
    {
      AppendNext(bytes, functions, EncodeFunction, i);
      var next := AppendFunction(bytes, functions[i]);
      if next.Err? { return next; }
      bytes := next.value;
    }
    assert bytes + [] == bytes;
    return Ok(bytes);
  }

  method AppendEntries(out: Text, entries: seq<SourceMapEntry>) returns (r: Result<Text>)
    ensures r == Append(out, EncodeList(entries, EncodeEntry))
  {
    hide EncodeText, U32;
    if |entries| >= TWO32 {
      return Err(TooMany);
    }
    var bytes := AppendU32(out, |entries|);
    ghost var start := bytes;
    for i := 0 to |entries|
      invariant Append(start, EncodeAll(entries[0..], EncodeEntry)) == Append(bytes, EncodeAll(entries[i..], EncodeEntry))
    {
      AppendNext(bytes, entries, EncodeEntry, i);
      ghost var before := bytes;
      assert entries[0..] == entries;
      bytes := AppendU32(bytes, entries[i].debugId);
      bytes := AppendU32(bytes, entries[i].line);
      bytes := AppendU32(bytes, entries[i].column);
      bytes := bytes + [entries[i].provenance];
      var unit := AppendText(bytes, entries[i].sourceUnit);
      if unit.Err? { return unit; }
      bytes := unit.value;
      assert bytes == before + EncodeEntry(entries[i]).value;
    }
    Finish(out, entries, EncodeEntry, bytes);
    return Ok(bytes);
  }

  /** `serializeIr`. */
  method Serialize(m: Module) returns (r: Result<Text>)
    ensures r == Encode(m)
  {
    hide EncodeText, U32, EncodeList, EncodeAll, EncodeLayout, EncodeFunction, EncodeEntry;
    if m.schemaVersion != SCHEMA_VERSION {
      return Err(UnsupportedVersion);
    }
    if !HasEntry(m) {
      return Err(InvalidEntry);
    }
    var bytes := AppendU32([], SCHEMA_MAGIC);
    bytes := AppendU32(bytes, SCHEMA_VERSION);
    bytes := AppendU32(bytes, |m.functions| % TWO32);
    bytes := AppendU32(bytes, m.entryIndex);
    var strings := AppendTexts(bytes, m.stringTable);
    if strings.Err? { return strings; }
    var layouts := AppendLayouts(strings.value, m.structLayouts);
    if layouts.Err? { return layouts; }
    var functions := AppendFunctions(layouts.value, m.functions);
    if functions.Err? { return functions; }
    var entries := AppendEntries(functions.value, m.sourceMap);
    if entries.Err? { return entries; }
    assert entries.value == Encode(m).value;
    return entries;
  }

  // ----- reading -----

  /** A value read, and the offset behind it. */
  datatype Located<+T> = Located(value: T, offset: nat)

  /** Reading at an offset gives what `p`, read from the bytes at that offset, gives. */
  ghost predicate Agrees<T>(data: Text, r: Result<Located<T>>, p: Result<Parsed<T>>) {
    match r
    case Ok(l) => l.offset <= |data| && p == Ok(Parsed(l.value, data[l.offset..]))
    case Err(e) => p == Err(e)
  }

  method TakeU8(data: Text, offset: nat) returns (r: Result<Located<u8>>)
    requires offset <= |data|
    ensures Agrees(data, r, ReadU8(data[offset..]))
  {
    if offset >= |data| {
      return Err(Truncated);
    }
    assert data[offset..][1..] == data[offset + 1..];
    return Ok(Located(data[offset], offset + 1));
  }

  method TakeU32(data: Text, offset: nat) returns (r: Result<Located<u32>>)
    requires offset <= |data|
    ensures Agrees(data, r, ReadU32(data[offset..]))
  {
    if offset + 4 > |data| {
      return Err(Truncated);
    }
    var b := data[offset..offset + 4];
    var v: nat := b[0] as int + b[1] as int * 0x100 + b[2] as int * 0x1_0000 + b[3] as int * 0x100_0000;
    assert data[offset..][..4] == b && data[offset..][4..] == data[offset + 4..];
    assert b[1..][1..] == b[2..] && b[2..][1..] == b[3..] && b[3..][1..] == [];
    assert FromLittleEndian(b[3..]) == b[3];
    assert FromLittleEndian(b[2..]) == b[2] + 256 * (b[3] as int);
    assert FromLittleEndian(b[1..]) == b[1] + 256 * (b[2] as int + 256 * (b[3] as int));
    Widths();
    return Ok(Located(v, offset + 4));
  }

  method TakeU64(data: Text, offset: nat) returns (r: Result<Located<u64>>)
    requires offset <= |data|
    ensures Agrees(data, r, ReadU64(data[offset..]))
  {
    if offset + 8 > |data| {
      return Err(Truncated);
    }
    var v: nat := 0;
    var b := data[offset..offset + 8];
    var k := 8;
    while k > 0
      invariant 0 <= k <= 8 && v == FromLittleEndian(b[k..])
    {
      k := k - 1;
      assert b[k..][0] == b[k] && b[k..][1..] == b[k + 1..];
      v := b[k] + 256 * v;
    }
    assert b[0..] == b && data[offset..][..8] == b && data[offset..][8..] == data[offset + 8..];
    Widths();
    return Ok(Located(v, offset + 8));
  }

  method TakeText(data: Text, offset: nat) returns (r: Result<Located<Text>>)
    requires offset <= |data|
    ensures Agrees(data, r, DecodeText(data[offset..]))
  {
    hide ReadU32;
    var n := TakeU32(data, offset);
    if n.Err? {
      return Err(n.error);
    }
    var start, len := n.value.offset, n.value.value;
    if start + len > |data| {
      return Err(Truncated);
    }
    assert data[start..][..len] == data[start..start + len] && data[start..][len..] == data[start + len..];
    return Ok(Located(data[start..start + len], start + len));
  }

  /** The list read so far in front of what is still to read. */
  function Behind<T>(xs: seq<T>, p: Result<Parsed<seq<T>>>): Result<Parsed<seq<T>>> {
    match p
    case Ok(r) => Ok(Parsed(xs + r.value, r.rest))
    case Err(e) => Err(e)
  }

  lemma {:induction false} BehindNext<T>(xs: seq<T>, n: nat, dec: Text -> Result<Parsed<T>>, b: Text)
    requires n > 0
    ensures Behind(xs, DecodeMany(n, dec, b)) ==
            match dec(b)
            case Ok(first) => Behind(xs + [first.value], DecodeMany(n - 1, dec, first.rest))
            case Err(e) => Err(e)
  {
    if dec(b).Ok? && DecodeMany(n - 1, dec, dec(b).value.rest).Ok? {
      var more := DecodeMany(n - 1, dec, dec(b).value.rest).value.value;
      assert xs + ([dec(b).value.value] + more) == xs + [dec(b).value.value] + more;
    }
  }

  lemma {:induction false} BehindNothing<T>(xs: seq<T>, n: nat, dec: Text -> Result<Parsed<T>>, b: Text)
    ensures Behind([], DecodeMany(n, dec, b)) == DecodeMany(n, dec, b)
    ensures Behind(xs, DecodeMany(0, dec, b)) == Ok(Parsed(xs, b))
  {
    if DecodeMany(n, dec, b).Ok? {
      assert [] + DecodeMany(n, dec, b).value.value == DecodeMany(n, dec, b).value.value;
    }
    assert xs + [] == xs;
  }

  method TakeTexts(data: Text, offset: nat) returns (r: Result<Located<seq<Text>>>)
    requires offset <= |data|
    ensures Agrees(data, r, DecodeList(DecodeText, data[offset..]))
  {
    hide ReadU32, DecodeText, DecodeMany;
    var n := TakeU32(data, offset);
    if n.Err? { return Err(n.error); }
    var count, at := n.value.value, n.value.offset;
    var texts: seq<Text> := [];
    ghost var whole := DecodeMany(count, DecodeText, data[at..]);
    BehindNothing(texts, count, DecodeText, data[at..]);
    for i := 0 to count
      invariant 0 <= at <= |data| && whole == Behind(texts, DecodeMany(count - i, DecodeText, data[at..]))
    {
      BehindNext(texts, count - i, DecodeText, data[at..]);
      var text := TakeText(data, at);
      if text.Err? { return Err(text.error); }
      texts, at := texts + [text.value.value], text.value.offset;
    }
    BehindNothing(texts, count, DecodeText, data[at..]);
    return Ok(Located(texts, at));
  }

  method TakeField(data: Text, offset: nat) returns (r: Result<Located<StructField>>)
    requires offset <= |data|
    ensures Agrees(data, r, DecodeField(data[offset..]))
  {
    hide ReadU32, DecodeText;
    var name := TakeText(data, offset);
    if name.Err? { return Err(name.error); }
    var envelope := TakeText(data, name.value.offset);
    if envelope.Err? { return Err(envelope.error); }
    var start := TakeU32(data, envelope.value.offset);
    if start.Err? { return Err(start.error); }
    var size := TakeU32(data, start.value.offset);
    if size.Err? { return Err(size.error); }
    var alignment := TakeU32(data, size.value.offset);
    if alignment.Err? { return Err(alignment.error); }
    var padding := TakeU32(data, alignment.value.offset);
    if padding.Err? { return Err(padding.error); }
    var category := TakeU32(data, padding.value.offset);
    if category.Err? { return Err(category.error); }
    var visibility := TakeU32(data, category.value.offset);
    if visibility.Err? { return Err(visibility.error); }
    var isStatic := TakeU32(data, visibility.value.offset);
    if isStatic.Err? { return Err(isStatic.error); }
    var field := StructField(
      name.value.value, envelope.value.value, start.value.value, size.value.value, alignment.value.value,
      padding.value.value % TWO8, category.value.value % TWO8,
      (if visibility.value.value == 1 then 2 else visibility.value.value) % TWO8, isStatic.value.value != 0);
    return Ok(Located(field, isStatic.value.offset));
  }

  method TakeFields(data: Text, offset: nat) returns (r: Result<Located<seq<StructField>>>)
    requires offset <= |data|
    ensures Agrees(data, r, DecodeList(DecodeField, data[offset..]))
  {
    hide ReadU32, DecodeField, DecodeMany;
    var n := TakeU32(data, offset);
    if n.Err? { return Err(n.error); }
    var count, at := n.value.value, n.value.offset;
    var fields: seq<StructField> := [];
    ghost var whole := DecodeMany(count, DecodeField, data[at..]);
    BehindNothing(fields, count, DecodeField, data[at..]);
    for i := 0 to count
      invariant 0 <= at <= |data| && whole == Behind(fields, DecodeMany(count - i, DecodeField, data[at..]))
    {
      BehindNext(fields, count - i, DecodeField, data[at..]);
      var field := TakeField(data, at);
      if field.Err? { return Err(field.error); }
      fields, at := fields + [field.value.value], field.value.offset;
    }
    BehindNothing(fields, count, DecodeField, data[at..]);
    return Ok(Located(fields, at));
  }

  method TakeLayouts(data: Text, offset: nat) returns (r: Result<Located<seq<StructLayout>>>)
    requires offset <= |data|
    ensures Agrees(data, r, DecodeList(DecodeLayout, data[offset..]))
  {
    hide ReadU32, DecodeText, DecodeList, DecodeMany, DecodeField;
    ListIsMany(DecodeLayout, data[offset..]);
    var n := TakeU32(data, offset);
    if n.Err? { return Err(n.error); }
    var count, at := n.value.value, n.value.offset;
    var layouts: seq<StructLayout> := [];
    ghost var whole := DecodeMany(count, DecodeLayout, data[at..]);
    BehindNothing(layouts, count, DecodeLayout, data[at..]);
    for i := 0 to count
      invariant 0 <= at <= |data| && whole == Behind(layouts, DecodeMany(count - i, DecodeLayout, data[at..]))
    {
      BehindNext(layouts, count - i, DecodeLayout, data[at..]);
      var name := TakeText(data, at);
      if name.Err? { return Err(name.error); }
      var total := TakeU32(data, name.value.offset);
      if total.Err? { return Err(total.error); }
      var alignment := TakeU32(data, total.value.offset);
      if alignment.Err? { return Err(alignment.error); }
      var fields := TakeFields(data, alignment.value.offset);
      if fields.Err? { return Err(fields.error); }
      var layout := StructLayout(name.value.value, total.value.value, alignment.value.value, fields.value.value);
      layouts, at := layouts + [layout], fields.value.offset;
    }
    BehindNothing(layouts, count, DecodeLayout, data[at..]);
    return Ok(Located(layouts, at));
  }

  lemma {:induction false} ListIsMany<T>(dec: Text -> Result<Parsed<T>>, b: Text)
    ensures ReadU32(b).Ok? ==> DecodeList(dec, b) == DecodeMany(ReadU32(b).value.value, dec, ReadU32(b).value.rest)
    ensures ReadU32(b).Err? ==> DecodeList(dec, b) == Err(ReadU32(b).error)
  {
  }

  method TakeSlots(data: Text, offset: nat) returns (r: Result<Located<seq<LocalDebugSlot>>>)
    requires offset <= |data|
    ensures Agrees(data, r, DecodeList(DecodeSlot, data[offset..]))
  {
    hide ReadU32, DecodeText, DecodeMany;
    var n := TakeU32(data, offset);
    if n.Err? { return Err(n.error); }
    var count, at := n.value.value, n.value.offset;
    var slots: seq<LocalDebugSlot> := [];
    ghost var whole := DecodeMany(count, DecodeSlot, data[at..]);
    BehindNothing(slots, count, DecodeSlot, data[at..]);
    for i := 0 to count
      invariant 0 <= at <= |data| && whole == Behind(slots, DecodeMany(count - i, DecodeSlot, data[at..]))
    {
      BehindNext(slots, count - i, DecodeSlot, data[at..]);
      var slot := TakeU32(data, at);
      if slot.Err? { return Err(slot.error); }
      var name := TakeText(data, slot.value.offset);
      if name.Err? { return Err(name.error); }
      var typeName := TakeText(data, name.value.offset);
      if typeName.Err? { return Err(typeName.error); }
      slots := slots + [LocalDebugSlot(slot.value.value, name.value.value, typeName.value.value)];
      at := typeName.value.offset;
    }
    BehindNothing(slots, count, DecodeSlot, data[at..]);
    return Ok(Located(slots, at));
  }

  method TakeInstructions(data: Text, offset: nat) returns (r: Result<Located<Body>>)
    requires offset <= |data|
    ensures Agrees(data, r, DecodeList(DecodeInstruction, data[offset..]))
  {
    hide ReadU8, ReadU32, ReadU64, DecodeMany;
    var n := TakeU32(data, offset);
    if n.Err? { return Err(n.error); }
    var count, at := n.value.value, n.value.offset;
    var body: Body := [];
    ghost var whole := DecodeMany(count, DecodeInstruction, data[at..]);
    BehindNothing(body, count, DecodeInstruction, data[at..]);
    for i := 0 to count
      invariant 0 <= at <= |data| && whole == Behind(body, DecodeMany(count - i, DecodeInstruction, data[at..]))
    {
      BehindNext(body, count - i, DecodeInstruction, data[at..]);
      var op := TakeU8(data, at);
      if op.Err? { return Err(op.error); }
      if op.value.value < PUSH_I32 || op.value.value > HEAP_REALLOC { return Err(UnsupportedOpcode); }
      var imm := TakeU64(data, op.value.offset);
      if imm.Err? { return Err(imm.error); }
      var debugId := TakeU32(data, imm.value.offset);
      if debugId.Err? { return Err(debugId.error); }
      body := body + [Instruction(op.value.value, imm.value.value, debugId.value.value)];
      at := debugId.value.offset;
    }
    BehindNothing(body, count, DecodeInstruction, data[at..]);
    return Ok(Located(body, at));
  }

  method TakeFunction(data: Text, offset: nat) returns (r: Result<Located<Function>>)
    requires offset <= |data|
    ensures Agrees(data, r, DecodeFunction(data[offset..]))
  {
    hide ReadU32, ReadU64, DecodeText, DecodeList;
    var name := TakeText(data, offset);
    if name.Err? { return Err(name.error); }
    var effects := TakeU64(data, name.value.offset);
    if effects.Err? { return Err(effects.error); }
    var capabilities := TakeU64(data, effects.value.offset);
    if capabilities.Err? { return Err(capabilities.error); }
    var scope := TakeU32(data, capabilities.value.offset);
    if scope.Err? { return Err(scope.error); }
    var flags := TakeU32(data, scope.value.offset);
    if flags.Err? { return Err(flags.error); }
    var parameters := TakeU32(data, flags.value.offset);
    if parameters.Err? { return Err(parameters.error); }
    var slots := TakeSlots(data, parameters.value.offset);
    if slots.Err? { return Err(slots.error); }
    var body := TakeInstructions(data, slots.value.offset);
    if body.Err? { return Err(body.error); }
    var metadata := Metadata(effects.value.value, capabilities.value.value, scope.value.value, flags.value.value);
    var function_ := Function(name.value.value, metadata, parameters.value.value, slots.value.value, body.value.value);
    return Ok(Located(function_, body.value.offset));
  }

  method TakeFunctions(data: Text, count: nat, offset: nat) returns (r: Result<Located<seq<Function>>>)
    requires offset <= |data|
    ensures Agrees(data, r, DecodeMany(count, DecodeFunction, data[offset..]))
  {
    hide DecodeFunction, DecodeMany;
    var at := offset;
    var functions: seq<Function> := [];
    ghost var whole := DecodeMany(count, DecodeFunction, data[at..]);
    BehindNothing(functions, count, DecodeFunction, data[at..]);
    for i := 0 to count
      invariant 0 <= at <= |data| && whole == Behind(functions, DecodeMany(count - i, DecodeFunction, data[at..]))
    {
      BehindNext(functions, count - i, DecodeFunction, data[at..]);
      var next := TakeFunction(data, at);
      if next.Err? { return Err(next.error); }
      functions, at := functions + [next.value.value], next.value.offset;
    }
    BehindNothing(functions, count, DecodeFunction, data[at..]);
    return Ok(Located(functions, at));
  }

  method TakeEntries(data: Text, offset: nat) returns (r: Result<Located<seq<SourceMapEntry>>>)
    requires offset <= |data|
    ensures Agrees(data, r, DecodeList(DecodeEntry, data[offset..]))
  {
    hide ReadU8, ReadU32, DecodeText, DecodeMany;
    var n := TakeU32(data, offset);
    if n.Err? { return Err(n.error); }
    var count, at := n.value.value, n.value.offset;
    var entries: seq<SourceMapEntry> := [];
    ghost var whole := DecodeMany(count, DecodeEntry, data[at..]);
    BehindNothing(entries, count, DecodeEntry, data[at..]);
    for i := 0 to count
      invariant 0 <= at <= |data| && whole == Behind(entries, DecodeMany(count - i, DecodeEntry, data[at..]))
    {
      BehindNext(entries, count - i, DecodeEntry, data[at..]);
      var debugId := TakeU32(data, at);
      if debugId.Err? { return Err(debugId.error); }
      var line := TakeU32(data, debugId.value.offset);
      if line.Err? { return Err(line.error); }
      var column := TakeU32(data, line.value.offset);
      if column.Err? { return Err(column.error); }
      var provenance := TakeU8(data, column.value.offset);
      if provenance.Err? { return Err(provenance.error); }
      if provenance.value.value > MAX_PROVENANCE { return Err(UnsupportedProvenance); }
      var unit := TakeText(data, provenance.value.offset);
      if unit.Err? { return Err(unit.error); }
      entries := entries + [SourceMapEntry(debugId.value.value, line.value.value, column.value.value,
                                           provenance.value.value, unit.value.value)];
      at := unit.value.offset;
    }
    BehindNothing(entries, count, DecodeEntry, data[at..]);
    return Ok(Located(entries, at));
  }

  /** `deserializeIr`, with the offset it stops at. */
  method Deserialize(data: Text) returns (r: Result<Located<Module>>)
    ensures Agrees(data, r, Decode(data))
  {
    hide ReadU32, DecodeText, DecodeList, DecodeMany, DecodeLayout, DecodeFunction, DecodeEntry;
    assert data[0..] == data;
    var magic := TakeU32(data, 0);
    if magic.Err? || magic.value.value != SCHEMA_MAGIC { return Err(InvalidHeader); }
    var version := TakeU32(data, magic.value.offset);
    if version.Err? { return Err(version.error); }
    if version.value.value != SCHEMA_VERSION { return Err(UnsupportedVersion); }
    var count := TakeU32(data, version.value.offset);
    if count.Err? { return Err(count.error); }
    var entry := TakeU32(data, count.value.offset);
    if entry.Err? { return Err(entry.error); }
    var strings := TakeTexts(data, entry.value.offset);
    if strings.Err? { return Err(strings.error); }
    var layouts := TakeLayouts(data, strings.value.offset);
    if layouts.Err? { return Err(layouts.error); }
    var functions := TakeFunctions(data, count.value.value, layouts.value.offset);
    if functions.Err? { return Err(functions.error); }
    var entries := TakeEntries(data, functions.value.offset);
    if entries.Err? { return Err(entries.error); }
    if entry.value.value >= |functions.value.value| { return Err(InvalidEntry); }
    var entryIndex: i32 := if entry.value.value < TWO31 then entry.value.value else entry.value.value - TWO32;
    var m := Module(version.value.value, functions.value.value, entryIndex, strings.value.value,
                    layouts.value.value, entries.value.value);
    return Ok(Located(m, entries.value.offset));
  }
}
