/** Import expansion as it runs, over the builder. */
module ImportMethod {
  import opened Ir
  import opened Sets
  import opened Positions
  import opened SourceBuilder
  import opened ImportScan
  import opened ImportPayload
  import opened Imports

  ghost function StateOf(builder: ExpandedSourceBuilder, expanded: set<string>): State
    reads builder
  {
    State(expanded, Heads(builder.units), builder.log)
  }

  /** `sourceCursorAt`. */
  method SourceCursorAt(source: string, offset: nat) returns (cursor: Cursor)
    ensures cursor == CursorAt(source, offset)
  {
    cursor := ORIGIN;
    var limit := if offset < |source| then offset else |source|;
    for i := 0 to limit
      invariant cursor == Advance(ORIGIN, source[..i])
    {
      assert source[..i + 1][..i] == source[..i];
      if source[i] == '\n' {
        cursor := Cursor(cursor.line + 1, 1);
      } else {
        cursor := Cursor(cursor.line, cursor.column + 1);
      }
    }
  }

  /** `appendSourceSlice`. */
  method AppendSourceSlice(builder: ExpandedSourceBuilder, unit: nat, source: string, start: nat, end: nat)
    requires builder.Valid() && unit < |builder.units| && end <= |source|
    modifies builder
    ensures builder.Valid() && Heads(builder.units) == Heads(old(builder.units))
    ensures builder.log == old(builder.log) + Slice(unit, source, start, end)
  {
    hide CursorAt, LogText, Segments, Advance, IsHull;
    if start >= end || start >= |source| {
      return;
    }
    var cursor := SourceCursorAt(source, start);
    builder.AppendSegment(unit, source[start..end], cursor);
  }

  /** The run agrees with what the specification says. */
  ghost predicate Agrees(r: Outcome<set<string>>, spec: Outcome<State>, builder: ExpandedSourceBuilder)
    reads builder
  {
    match r
    case Fail(e) => spec == Fail(e)
    case Ok(expanded) => spec == Ok(StateOf(builder, expanded))
  }

  lemma {:induction false} OntoTwice(a: seq<string>, b: seq<string>, r: Outcome<seq<string>>)
    ensures Onto(a, Onto(b, r)) == Onto(a + b, r) && Onto([], r) == r
  {
    if r.Ok? {
      assert a + (b + r.value) == a + b + r.value && [] + r.value == r.value;
    }
  }

  /** The part of `expandImportsInternal` between the payload and the loading of its files. */
  method ResolvePayload(w: World, base: string, payload: string) returns (r: Outcome<seq<string>>)
    ensures r == Resolve(w, base, payload)
  {
    hide Read, ParseVersion, ResolveEntry, Onto;
    var parsed := ParsePayload(payload);
    if parsed.Fail? {
      return Fail(parsed.error);
    }
    var entries := parsed.value.entries;
    var requested: Option<seq<nat>> := None;
    if parsed.value.version.Some? {
      var parts := ParseVersionParts(parsed.value.version.value);
      if parts.Fail? {
        return Fail(parts.error);
      }
      requested := Some(parts.value);
    }
    var selected: Option<string> := None;
    var files: seq<string> := [];
    ghost var spec := ResolveEntries(w, base, entries, requested, None);
    assert entries[0..] == entries;
    OntoTwice([], [], spec);
    for i := 0 to |entries|
      invariant spec == Onto(files, ResolveEntries(w, base, entries[i..], requested, selected))
    {
      assert entries[i..][0] == entries[i] && entries[i..][1..] == entries[i + 1..];
      var chosen := ResolveEntry(w, base, entries[i], requested, selected);
      if chosen.Fail? {
        FailsOn(files, chosen.error);
        return Fail(chosen.error);
      }
      OntoTwice(files, chosen.value.files, ResolveEntries(w, base, entries[i + 1..], requested, chosen.value.version));
      files := files + chosen.value.files;
      selected := chosen.value.version;
    }
    NothingOnto(files);
    r := Ok(files);
  }

  lemma {:induction false} FailsOn(files: seq<string>, e: Error)
    ensures Onto(files, Fail(e)) == Fail(e)
  {
  }

  lemma {:induction false} NothingOnto(files: seq<string>)
    ensures Onto(files, Ok([])) == Ok(files)
  {
    assert files + [] == files;
  }

  /** What a directive does: copy the text before it, then load its files. */
  ghost function OnDirective(w: World, base: string, payload: string, pieces: seq<Piece>, st: State): Outcome<State> {
    match Resolve(w, base, payload) case Fail(e) => Fail(e) case Ok(paths) => Load(w, paths, Append(st, pieces))
  }

  lemma {:induction false} ExpandStep(w: World, base: string, source: string, i: nat, copied: nat, unit: nat, st: State)
    requires copied <= i < |source|
    ensures Expand(w, base, source, i, copied, unit, st) ==
            match Look(source, i)
            case Skip(next) => Expand(w, base, source, next, copied, unit, st)
            case Legacy(terminated) => Fail(if terminated then LegacyInclude else UnterminatedInclude)
            case Unterminated => Fail(UnterminatedImport)
            case Directive(start, end) =>
              match OnDirective(w, base, source[start..end], Slice(unit, source, copied, i), st)
              case Fail(e) => Fail(e)
              case Ok(after) => Expand(w, base, source, end + 1, end + 1, unit, after)
  {
    hide Look, Resolve, Slice, Load;
  }

  lemma {:induction false} ExpandEnds(w: World, base: string, source: string, copied: nat, unit: nat, st: State)
    requires copied <= |source|
    ensures Expand(w, base, source, |source|, copied, unit, st) == Ok(Append(st, Slice(unit, source, copied, |source|)))
  {
  }

  /** `expandImportsInternal`. */
  method ExpandInternal(w: World, base: string, source: string, seen: set<string>, builder: ExpandedSourceBuilder, unit: nat)
    returns (r: Outcome<set<string>>)
    requires builder.Valid() && unit < |builder.units|
    modifies builder
    ensures builder.Valid() && |builder.units| >= |old(builder.units)|
    ensures Agrees(r, Expand(w, base, source, 0, 0, unit, old(StateOf(builder, seen))), builder)
    ensures r.Ok? ==> seen <= r.value
    decreases |Open(w, seen)|, 1, 0
  {
    hide Look, Resolve, Slice, Expand, OnDirective, Open, ExpandedSourceBuilder.Valid, Heads;
    var expanded := seen;
    var i, copyStart := 0, 0;
    ghost var spec := Expand(w, base, source, 0, 0, unit, StateOf(builder, seen));
    while i < |source|
      invariant copyStart <= i <= |source| && seen <= expanded
      invariant builder.Valid() && |builder.units| >= |old(builder.units)|
      invariant spec == Expand(w, base, source, i, copyStart, unit, StateOf(builder, expanded))
      decreases |source| - i
    {
      ExpandStep(w, base, source, i, copyStart, unit, StateOf(builder, expanded));
      var item := Step(source, i);
      match item {
        case Skip(next) => i := next;
        case Legacy(terminated) => return Fail(if terminated then LegacyInclude else UnterminatedInclude);
        case Unterminated => return Fail(UnterminatedImport);
        case Directive(start, end) =>
          OpenShrinks(w, seen, expanded);
          ghost var st := StateOf(builder, expanded);
          AppendSourceSlice(builder, unit, source, copyStart, i);
          var loaded := ExpandDirective(w, base, source[start..end], expanded, builder, Slice(unit, source, copyStart, i), st);
          if loaded.Fail? {
            return Fail(loaded.error);
          }
          expanded := loaded.value;
          i := end + 1;
          copyStart := i;
      }
    }
    ExpandEnds(w, base, source, copyStart, unit, StateOf(builder, expanded));
    AppendSourceSlice(builder, unit, source, copyStart, i);
    r := Ok(expanded);
  }

  /** The files of a directive, the text before it being copied already. */
  method ExpandDirective(w: World, base: string, payload: string, seen: set<string>, builder: ExpandedSourceBuilder,
                         ghost pieces: seq<Piece>, ghost st: State)
    returns (r: Outcome<set<string>>)
    requires builder.Valid() && StateOf(builder, seen) == Append(st, pieces)
    modifies builder
    ensures builder.Valid() && |builder.units| >= |old(builder.units)|
    ensures Agrees(r, OnDirective(w, base, payload, pieces, st), builder)
    ensures r.Ok? ==> seen <= r.value
    decreases |Open(w, seen)|, 0, 1
  {
    hide Load, ExpandedSourceBuilder.Valid, Heads, Open, Resolve;
    var paths := ResolvePayload(w, base, payload);
    if paths.Fail? {
      return Fail(paths.error);
    }
    r := LoadFiles(w, paths.value, seen, builder);
  }

  /** One round of the scan: what there is at `i`. */
  method Step(source: string, i: nat) returns (item: Item)
    requires i < |source|
    ensures item == Look(source, i)
  {
    hide Unquote, LineEnd, BlockEnd, PayloadStart, PayloadEnd, At;
    AtComment(source, i);
    if IsQuote(source[i]) {
      var next := SkipQuotedLiteral(source, i);
      return Skip(next);
    }
    if source[i] == '/' && i + 1 < |source| {
      if source[i + 1] == '/' {
        var next := SkipLineComment(source, i);
        return Skip(next);
      }
      if source[i + 1] == '*' {
        return Skip(BlockEnd(source, i + 2));
      }
    }
    var start, end := ScanDirective(source, i, "include");
    if start.Some? {
      return Legacy(end.Some?);
    }
    start, end := ScanDirective(source, i, "import");
    if start.None? {
      return Skip(i + 1);
    }
    if end.None? {
      return Unterminated;
    }
    return Directive(start.value, end.value);
  }

  lemma {:induction false} LoadStep(w: World, paths: seq<string>, n: nat, st: State)
    requires n < |paths|
    ensures Load(w, paths[n..], st) ==
            match OnFile(w, paths[n], st) case Fail(e) => Fail(e) case Ok(after) => Load(w, paths[n + 1..], after)
  {
    hide Expand, Separate, Enter;
    assert paths[n..][0] == paths[n] && paths[n..][1..] == paths[n + 1..];
  }

  lemma {:induction false} LoadEnds(w: World, paths: seq<string>, st: State)
    ensures Load(w, paths[|paths|..], st) == Ok(st)
  {
  }

  /** What one file of a directive does. */
  ghost function OnFile(w: World, path: string, st: State): Outcome<State> {
    if w.key(path) in st.expanded then Ok(st)
    else if path !in w.files then Fail(Unreadable(path))
    else
      match Expand(w, w.parent(path), w.files[path], 0, 0, |st.heads|, Enter(w, path, st))
      case Fail(e) => Fail(e)
      case Ok(after) => Ok(Separate(st, after))
  }

  /** The loop over the files of one directive. */
  method LoadFiles(w: World, paths: seq<string>, seen: set<string>, builder: ExpandedSourceBuilder)
    returns (r: Outcome<set<string>>)
    requires builder.Valid()
    modifies builder
    ensures builder.Valid() && |builder.units| >= |old(builder.units)|
    ensures Agrees(r, Load(w, paths, old(StateOf(builder, seen))), builder)
    ensures r.Ok? ==> seen <= r.value
    decreases |Open(w, seen)|, 0, 0
  {
    hide Load, OnFile, ExpandedSourceBuilder.Valid, Heads, Open;
    var expanded := seen;
    ghost var spec := Load(w, paths, StateOf(builder, seen));
    assert paths[0..] == paths;
    for n := 0 to |paths|
      invariant seen <= expanded
      invariant builder.Valid() && |builder.units| >= |old(builder.units)|
      invariant spec == Load(w, paths[n..], StateOf(builder, expanded))
    {
      LoadStep(w, paths, n, StateOf(builder, expanded));
      if w.key(paths[n]) in expanded {
        SkipFile(w, paths[n], StateOf(builder, expanded));
        continue;
      }
      if paths[n] !in w.files {
        MissFile(w, paths[n], StateOf(builder, expanded));
        return Fail(Unreadable(paths[n]));
      }
      EnterShrinks(w, seen, expanded, paths[n]);
      var loaded := LoadFile(w, paths[n], expanded, builder);
      if loaded.Fail? {
        return Fail(loaded.error);
      }
      expanded := loaded.value;
    }
    LoadEnds(w, paths, StateOf(builder, expanded));
    r := Ok(expanded);
  }

  lemma {:induction false} SkipFile(w: World, path: string, st: State)
    requires w.key(path) in st.expanded
    ensures OnFile(w, path, st) == Ok(st)
  {
  }

  lemma {:induction false} MissFile(w: World, path: string, st: State)
    requires w.key(path) !in st.expanded && path !in w.files
    ensures OnFile(w, path, st) == Fail(Unreadable(path))
  {
  }

  lemma {:induction false} EnterShrinks(w: World, seen: set<string>, expanded: set<string>, path: string)
    requires seen <= expanded && w.key(path) !in expanded && path in w.files
    ensures |Open(w, expanded + {w.key(path)})| < |Open(w, seen)|
  {
    assert w.key(path) in Keys(w);
    assert w.key(path) in Open(w, expanded) && w.key(path) !in Open(w, expanded + {w.key(path)});
    SubsetSize(Open(w, expanded + {w.key(path)}), Open(w, expanded));
    SubsetSize(Open(w, expanded), Open(w, seen));
  }

  /** One file met for the first time. */
  method LoadFile(w: World, path: string, seen: set<string>, builder: ExpandedSourceBuilder)
    returns (r: Outcome<set<string>>)
    requires builder.Valid() && w.key(path) !in seen && path in w.files
    modifies builder
    ensures builder.Valid() && |builder.units| >= |old(builder.units)|
    ensures Agrees(r, OnFile(w, path, old(StateOf(builder, seen))), builder)
    ensures r.Ok? ==> seen <= r.value
    decreases |Open(w, seen + {w.key(path)})|, 2, 0
  {
    hide Expand, Open, HullsOk, LogText, Segments, Advance, Heads, IdsOk, UnitsExist, NoEmptyPiece;
    var expanded := seen + {w.key(path)};
    var beforeSize := |builder.text|;
    var unit := builder.AddUnit(Header(Import, path, "", ORIGIN));
    var inner := ExpandInternal(w, w.parent(path), w.files[path], expanded, builder, unit);
    if inner.Fail? {
      return Fail(inner.error);
    }
    if |builder.text| > beforeSize && !builder.TextEndsWithNewline() {
      var separator := builder.AppendGenerated("\n", "<import-separator>");
    }
    r := Ok(inner.value);
  }

  /** `expandImports`: the builder it fills, and the files it saw. */
  method ExpandAll(w: World, input: string) returns (builder: ExpandedSourceBuilder, r: Outcome<set<string>>)
    ensures builder.Valid() && Agrees(r, ExpandImports(w, input), builder)
  {
    hide LogText, Segments, Advance, IsHull, HullsOk, Expand;
    NoTables();
    builder := new ExpandedSourceBuilder("", [], [], []);
    if input !in w.files {
      return builder, Fail(Unreadable(input));
    }
    var unit := builder.AddUnit(Header(Primary, input, "", ORIGIN));
    assert StateOf(builder, {}) == State({}, [Header(Primary, input, "", ORIGIN)], []);
    r := ExpandInternal(w, w.parent(input), w.files[input], {}, builder, unit);
  }
}
