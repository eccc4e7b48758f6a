/** Imports as textual inclusion: what the flattened text is, without pieces or units. */
module ImportText {
  import opened Sets
  import opened Positions
  import opened SourceBuilder
  import opened ImportScan
  import opened ImportPayload
  import opened Imports

  datatype Flat = Flat(text: string, seen: set<string>)

  function Prefix(text: string, rest: Outcome<Flat>): Outcome<Flat> {
    match rest case Fail(e) => Fail(e) case Ok(f) => Ok(Flat(text + f.text, f.seen))
  }

  function Ended(text: string): string {
    if text != "" && text[|text| - 1] != '\n' then text + "\n" else text
  }

  /** The source from `i` on, each directive replaced by the files it stands for. */
  function Included(w: World, base: string, source: string, i: nat, seen: set<string>): (r: Outcome<Flat>)
    requires i <= |source|
    ensures r.Ok? ==> seen <= r.value.seen
    decreases |Open(w, seen)|, 1, |source| - i
  {
    if i == |source| then Ok(Flat("", seen))
    else
      match Look(source, i)
      case Skip(next) => Prefix(source[i..next], Included(w, base, source, next, seen))
      case Legacy(terminated) => Fail(if terminated then LegacyInclude else UnterminatedInclude)
      case Unterminated => Fail(UnterminatedImport)
      case Directive(start, end) =>
        match Resolve(w, base, source[start..end])
        case Fail(e) => Fail(e)
        case Ok(paths) =>
          match IncludedFiles(w, paths, seen)
          case Fail(e) => Fail(e)
          case Ok(f) =>
            SubsetSize(Open(w, f.seen), Open(w, seen));
            Prefix(f.text, Included(w, base, source, end + 1, f.seen))
  }

  /** The files not seen before, each ended by a line break unless it is empty. */
  function IncludedFiles(w: World, paths: seq<string>, seen: set<string>): (r: Outcome<Flat>)
    ensures r.Ok? ==> seen <= r.value.seen
    decreases |Open(w, seen)|, 0, |paths|
  {
    if paths == [] then Ok(Flat("", seen))
    else if w.key(paths[0]) in seen then IncludedFiles(w, paths[1..], seen)
    else if paths[0] !in w.files then Fail(Unreadable(paths[0]))
    else
      var entered := seen + {w.key(paths[0])};
      assert w.key(paths[0]) in Keys(w);
      SubsetSize(Open(w, entered), Open(w, seen));
      match Included(w, w.parent(paths[0]), w.files[paths[0]], 0, entered)
      case Fail(e) => Fail(e)
      case Ok(f) =>
        SubsetSize(Open(w, f.seen), Open(w, seen));
        Prefix(Ended(f.text), IncludedFiles(w, paths[1..], f.seen))
  }

  /** The expansion `r` of a state with this text adds exactly the text of `f`. */
  predicate Adds(text: string, f: Outcome<Flat>, r: Outcome<State>) {
    match r
    case Fail(e) => f == Fail(e)
    case Ok(t) => f.Ok? && LogText(t.log) == text + f.value.text && t.expanded == f.value.seen
  }

  lemma {:induction false} AddsPrefix(text: string, more: string, f: Outcome<Flat>, r: Outcome<State>)
    requires Adds(text + more, f, r)
    ensures Adds(text, Prefix(more, f), r)
  {
    hide LogText;
    if f.Ok? {
      assert text + (more + f.value.text) == text + more + f.value.text;
    }
  }

  lemma {:induction false} SeparateEnds(before: State, after: State, text: string)
    requires LogText(after.log) == LogText(before.log) + text
    ensures LogText(Separate(before, after).log) == LogText(before.log) + Ended(text)
    ensures Separate(before, after).expanded == after.expanded
  {
    hide LogText;
    var separator := Piece(|after.heads|, "\n", NOWHERE);
    PushPiece(after.log, separator);
    assert LogText(before.log) + text + "\n" == LogText(before.log) + (text + "\n");
  }

  lemma {:induction false} ExpandIncludes(w: World, base: string, source: string, i: nat, copied: nat, unit: nat, st: State)
    requires copied <= i <= |source|
    ensures Adds(LogText(st.log) + source[copied..i], Included(w, base, source, i, st.expanded),
                 Expand(w, base, source, i, copied, unit, st))
    decreases |Open(w, st.expanded)|, 1, |source| - i
  {
    hide Look, Resolve, Slice, LogText, Adds;
    var text := LogText(st.log);
    if i == |source| {
      EndIncludes(st, unit, source, copied);
    } else {
      var item := Look(source, i);
      match item
      case Skip(next) =>
        ExpandIncludes(w, base, source, next, copied, unit, st);
        assert text + source[copied..next] == text + source[copied..i] + source[i..next];
        AddsPrefix(text + source[copied..i], source[i..next], Included(w, base, source, next, st.expanded),
                   Expand(w, base, source, next, copied, unit, st));
      case Legacy(terminated) => FailureAdds(text + source[copied..i], if terminated then LegacyInclude else UnterminatedInclude);
      case Unterminated => FailureAdds(text + source[copied..i], UnterminatedImport);
      case Directive(start, end) =>
        var files := Resolve(w, base, source[start..end]);
        if files.Fail? {
          FailureAdds(text + source[copied..i], files.error);
        } else {
          DirectiveIncludes(w, base, source, i, copied, unit, st, end, files.value);
          var loaded := IncludedFiles(w, files.value, st.expanded);
          if loaded.Fail? {
            FailureAdds(text + source[copied..i], loaded.error);
          }
        }
    }
  }

  lemma {:induction false} FailureAdds(text: string, e: Error)
    ensures Adds(text, Fail(e), Fail(e))
  {
  }

  lemma {:induction false} EndIncludes(st: State, unit: nat, source: string, copied: nat)
    requires copied <= |source|
    ensures Adds(LogText(st.log) + source[copied..|source|], Ok(Flat("", st.expanded)),
                 Ok(Append(st, Slice(unit, source, copied, |source|))))
  {
    hide LogText, Slice;
    SliceText(unit, source, copied, |source|);
    LogConcat(st.log, Slice(unit, source, copied, |source|));
    assert LogText(st.log) + source[copied..|source|] + "" == LogText(st.log) + source[copied..|source|];
  }

  lemma {:induction false} AddsTells(text: string, f: Outcome<Flat>, r: Outcome<State>)
    requires Adds(text, f, r)
    ensures r.Fail? <==> f.Fail?
    ensures r.Fail? ==> f.error == r.error
    ensures r.Ok? ==> LogText(r.value.log) == text + f.value.text && r.value.expanded == f.value.seen
  {
    hide LogText;
  }

  lemma {:induction false} DirectiveIncludes(w: World, base: string, source: string, i: nat, copied: nat, unit: nat, st: State,
                                             end: nat, paths: seq<string>)
    requires copied <= i < end < |source|
    ensures var text := LogText(st.log) + source[copied..i];
            var loaded := Load(w, paths, Append(st, Slice(unit, source, copied, i)));
            var files := IncludedFiles(w, paths, st.expanded);
            if files.Fail? then loaded == Fail(files.error)
            else && loaded.Ok? && files.value.seen == loaded.value.expanded
                 && Adds(text, Prefix(files.value.text, Included(w, base, source, end + 1, files.value.seen)),
                         Expand(w, base, source, end + 1, end + 1, unit, loaded.value))
    decreases |Open(w, st.expanded)|, 1, |source| - i - 1
  {
    hide Slice, LogText, Included, IncludedFiles, Expand, Load, Adds, Open, Prefix;
    var text := LogText(st.log) + source[copied..i];
    var cut := Append(st, Slice(unit, source, copied, i));
    SliceText(unit, source, copied, i);
    LogConcat(st.log, Slice(unit, source, copied, i));
    LoadIncludes(w, paths, cut);
    var loaded := Load(w, paths, cut);
    var files := IncludedFiles(w, paths, st.expanded);
    AddsTells(LogText(cut.log), files, loaded);
    if loaded.Ok? {
      OpenShrinks(w, st.expanded, loaded.value.expanded);
      ExpandIncludes(w, base, source, end + 1, end + 1, unit, loaded.value);
      assert LogText(loaded.value.log) + source[end + 1..end + 1] == text + files.value.text;
      AddsPrefix(text, files.value.text, Included(w, base, source, end + 1, files.value.seen),
                 Expand(w, base, source, end + 1, end + 1, unit, loaded.value));
    }
  }

  lemma {:induction false} LoadIncludes(w: World, paths: seq<string>, st: State)
    ensures Adds(LogText(st.log), IncludedFiles(w, paths, st.expanded), Load(w, paths, st))
    decreases |Open(w, st.expanded)|, 0, |paths|
  {
    hide Separate, LogText, Expand, Included;
    var text := LogText(st.log);
    if paths == [] {
      assert text + "" == text;
    } else if w.key(paths[0]) in st.expanded {
      LoadIncludes(w, paths[1..], st);
    } else if paths[0] in w.files {
      var entered := Enter(w, paths[0], st);
      assert w.key(paths[0]) in Keys(w);
      SubsetSize(Open(w, entered.expanded), Open(w, st.expanded));
      ExpandIncludes(w, w.parent(paths[0]), w.files[paths[0]], 0, 0, |st.heads|, entered);
      assert text + w.files[paths[0]][0..0] == text;
      var r := Expand(w, w.parent(paths[0]), w.files[paths[0]], 0, 0, |st.heads|, entered);
      var f := Included(w, w.parent(paths[0]), w.files[paths[0]], 0, entered.expanded);
      if r.Ok? {
        SeparateEnds(st, r.value, f.value.text);
        var apart := Separate(st, r.value);
        SubsetSize(Open(w, apart.expanded), Open(w, st.expanded));
        LoadIncludes(w, paths[1..], apart);
        AddsPrefix(text, Ended(f.value.text), IncludedFiles(w, paths[1..], f.value.seen), Load(w, paths[1..], apart));
      }
    }
  }

  /** The flattened text is the input with every directive replaced, where it stands, by the
      files it names that were not included before; and both fail alike. */
  lemma {:induction false} ExpansionIsInclusion(w: World, input: string)
    requires input in w.files
    ensures Adds("", Included(w, w.parent(input), w.files[input], 0, {}), ExpandImports(w, input))
  {
    hide Expand, Included;
    var first := State({}, [Header(Primary, input, "", ORIGIN)], []);
    ExpandIncludes(w, w.parent(input), w.files[input], 0, 0, 0, first);
    assert LogText(first.log) + w.files[input][0..0] == "";
  }
}
