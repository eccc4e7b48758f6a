/** Expansion of imports over a finite set of files. */
module Imports {
  import opened Ir
  import opened Sets
  import opened Positions
  import opened SourceBuilder
  import opened ImportScan
  import opened ImportPayload

  /** Where an entry was found, and under which version. */
  datatype Found = Found(path: string, version: Option<string>)

  /** The files there are; the key two names of one file share; the directory of a file; what an
      entry stands for in a directory, given a version; and the files of what was found. */
  datatype World = World(
    files: map<string, string>,
    key: string -> string,
    parent: string -> string,
    locate: (string, Entry, Option<seq<nat>>) -> Outcome<Found>,
    collect: string -> Outcome<seq<string>>)

  /** Files seen, units created, pieces appended. */
  datatype State = State(expanded: set<string>, heads: seq<Header>, log: seq<Piece>)

  // ----- the files of a directive -----

  /** All entries of a directive with a version are found under the same one. */
  function Select(requested: Option<seq<nat>>, selected: Option<string>, found: Option<string>): Outcome<Option<string>> {
    if requested.None? then Ok(selected)
    else if found.None? then Fail(NoVersion)
    else if selected.None? then Ok(found)
    else if selected != found then Fail(VersionMismatch(selected.value, found.value))
    else Ok(selected)
  }

  function ResolveEntry(w: World, base: string, entry: Entry, requested: Option<seq<nat>>, selected: Option<string>): Outcome<Chosen> {
    match w.locate(base, entry, requested)
    case Fail(e) => Fail(e)
    case Ok(found) =>
      match Select(requested, selected, found.version)
      case Fail(e) => Fail(e)
      case Ok(version) =>
        match w.collect(found.path) case Fail(e) => Fail(e) case Ok(files) => Ok(Chosen(files, version))
  }

  datatype Chosen = Chosen(files: seq<string>, version: Option<string>)

  function ResolveEntries(w: World, base: string, entries: seq<Entry>, requested: Option<seq<nat>>, selected: Option<string>): Outcome<seq<string>> {
    if entries == [] then Ok([])
    else
      match ResolveEntry(w, base, entries[0], requested, selected)
      case Fail(e) => Fail(e)
      case Ok(chosen) => Onto(chosen.files, ResolveEntries(w, base, entries[1..], requested, chosen.version))
  }

  function Onto(files: seq<string>, rest: Outcome<seq<string>>): Outcome<seq<string>> {
    match rest case Fail(e) => Fail(e) case Ok(more) => Ok(files + more)
  }

  /** The files a payload stands for in a directory. */
  function Resolve(w: World, base: string, payload: string): Outcome<seq<string>> {
    match Read(payload)
    case Fail(e) => Fail(e)
    case Ok(p) =>
      match p.version
      case None => ResolveEntries(w, base, p.entries, None, None)
      case Some(text) =>
        match ParseVersion(text)
        case Fail(e) => Fail(e)
        case Ok(parts) => ResolveEntries(w, base, p.entries, Some(parts), None)
  }

  // ----- what is kept of a source -----

  /** `appendSourceSlice`. */
  function Slice(unit: nat, source: string, from: nat, to: nat): seq<Piece>
    requires to <= |source|
  {
    if from >= to then [] else [Piece(unit, source[from..to], CursorAt(source, from))]
  }

  /** The source from `i` on without its import directives. */
  function Strip(source: string, i: nat): string
    requires i <= |source|
    decreases |source| - i
  {
    if i == |source| then ""
    else
      match Look(source, i)
      case Skip(next) => source[i..next] + Strip(source, next)
      case Directive(_, end) => Strip(source, end + 1)
      case _ => ""
  }

  /** No error is found from `i` on. */
  predicate Readable(source: string, i: nat)
    requires i <= |source|
    decreases |source| - i
  {
    i == |source| ||
    match Look(source, i)
    case Skip(next) => Readable(source, next)
    case Directive(_, end) => Readable(source, end + 1)
    case _ => false
  }

  /** The pieces of a source from `from` on, when the scan is at `i`. */
  function Cuts(unit: nat, source: string, i: nat, from: nat): seq<Piece>
    requires from <= i <= |source|
    decreases |source| - i
  {
    if i == |source| then Slice(unit, source, from, i)
    else
      match Look(source, i)
      case Skip(next) => Cuts(unit, source, next, from)
      case Directive(_, end) => Slice(unit, source, from, i) + Cuts(unit, source, end + 1, end + 1)
      case _ => []
  }

  // ----- expansion -----

  function Keys(w: World): set<string> { set p | p in w.files :: w.key(p) }

  /** The files that may still be entered. */
  function Open(w: World, expanded: set<string>): set<string> { Keys(w) - expanded }

  lemma {:induction false} OpenShrinks(w: World, a: set<string>, b: set<string>)
    requires a <= b
    ensures |Open(w, b)| <= |Open(w, a)|
  {
    SubsetSize(Open(w, b), Open(w, a));
  }

  function EndsWithNewline(text: string): bool { text != "" && text[|text| - 1] == '\n' }

  /** A line break between an imported text and what follows it, where it lacks one. */
  function Separate(before: State, after: State): State {
    if |LogText(after.log)| > |LogText(before.log)| && !EndsWithNewline(LogText(after.log))
    then after.(heads := after.heads + [Header(Generated, "", "<import-separator>", NOWHERE)],
                log := after.log + [Piece(|after.heads|, "\n", NOWHERE)])
    else after
  }

  /** The state in which an imported file is entered. */
  function Enter(w: World, path: string, st: State): State {
    State(st.expanded + {w.key(path)}, st.heads + [Header(Import, path, "", ORIGIN)], st.log)
  }

  function Append(st: State, pieces: seq<Piece>): State { st.(log := st.log + pieces) }

  /** `expandImportsInternal` from `i` on, with the text from `copied` on still to be copied. */
  function Expand(w: World, base: string, source: string, i: nat, copied: nat, unit: nat, st: State): (r: Outcome<State>)
    requires copied <= i <= |source|
    ensures r.Ok? ==> st.expanded <= r.value.expanded
    decreases |Open(w, st.expanded)|, 1, |source| - i
  {
    if i == |source| then Ok(Append(st, Slice(unit, source, copied, i)))
    else
      match Look(source, i)
      case Skip(next) => Expand(w, base, source, next, copied, unit, st)
      case Legacy(terminated) => Fail(if terminated then LegacyInclude else UnterminatedInclude)
      case Unterminated => Fail(UnterminatedImport)
      case Directive(start, end) =>
        match Resolve(w, base, source[start..end])
        case Fail(e) => Fail(e)
        case Ok(paths) =>
          match Load(w, paths, Append(st, Slice(unit, source, copied, i)))
          case Fail(e) => Fail(e)
          case Ok(after) =>
            SubsetSize(Open(w, after.expanded), Open(w, st.expanded));
            Expand(w, base, source, end + 1, end + 1, unit, after)
  }

  /** The files of one directive, in turn, each only the first time it is met. */
  function Load(w: World, paths: seq<string>, st: State): (r: Outcome<State>)
    ensures r.Ok? ==> st.expanded <= r.value.expanded
    decreases |Open(w, st.expanded)|, 0, |paths|
  {
    if paths == [] then Ok(st)
    else if w.key(paths[0]) in st.expanded then Load(w, paths[1..], st)
    else if paths[0] !in w.files then Fail(Unreadable(paths[0]))
    else
      var entered := Enter(w, paths[0], st);
      assert w.key(paths[0]) in Keys(w);
      SubsetSize(Open(w, entered.expanded), Open(w, st.expanded));
      match Expand(w, w.parent(paths[0]), w.files[paths[0]], 0, 0, |st.heads|, entered)
      case Fail(e) => Fail(e)
      case Ok(after) =>
        SubsetSize(Open(w, after.expanded), Open(w, st.expanded));
        Load(w, paths[1..], Separate(st, after))
  }

  /** `expandImports`. */
  function ExpandImports(w: World, input: string): Outcome<State> {
    if input !in w.files then Fail(Unreadable(input))
    else Expand(w, w.parent(input), w.files[input], 0, 0, 0, State({}, [Header(Primary, input, "", ORIGIN)], []))
  }

  // ----- cuts are the stripped source -----

  lemma {:induction false} LogConcat(a: seq<Piece>, b: seq<Piece>)
    ensures LogText(a + b) == LogText(a) + LogText(b)
    decreases |b|
  {
    if b == [] {
      assert a + b == a;
    } else {
      assert (a + b)[..|a + b| - 1] == a + b[..|b| - 1];
      LogConcat(a, b[..|b| - 1]);
    }
  }

  lemma {:induction false} SliceText(unit: nat, source: string, from: nat, to: nat)
    requires from <= to <= |source|
    ensures LogText(Slice(unit, source, from, to)) == source[from..to]
  {
    hide CursorAt;
    if from < to {
      var piece := Piece(unit, source[from..to], CursorAt(source, from));
      assert [piece][..0] == [];
    }
  }

  lemma {:induction false} CutsAreStripped(unit: nat, source: string, i: nat, from: nat)
    requires from <= i <= |source| && Readable(source, i)
    ensures LogText(Cuts(unit, source, i, from)) == source[from..i] + Strip(source, i)
    decreases |source| - i
  {
    hide LogText, Look, Slice, CursorAt;
    if i == |source| {
      SliceText(unit, source, from, i);
    } else {
      var item := Look(source, i);
      match item
      case Skip(next) =>
        CutsAreStripped(unit, source, next, from);
        assert source[from..next] + Strip(source, next) == source[from..i] + (source[i..next] + Strip(source, next));
      case Directive(_, end) =>
        CutsAreStripped(unit, source, end + 1, end + 1);
        SliceText(unit, source, from, i);
        LogConcat(Slice(unit, source, from, i), Cuts(unit, source, end + 1, end + 1));
      case _ =>
    }
  }

  ghost predicate AreSlices(pieces: seq<Piece>, source: string) {
    forall p :: p in pieces ==> exists start :: IsSlice(p, source, start)
  }

  lemma {:induction false} SliceIsSlice(unit: nat, source: string, from: nat, to: nat)
    requires from <= to <= |source|
    ensures AreSlices(Slice(unit, source, from, to), source)
  {
    hide CursorAt;
    if from < to {
      assert IsSlice(Piece(unit, source[from..to], CursorAt(source, from)), source, from);
    }
  }

  lemma {:induction false} CutsAreSlices(unit: nat, source: string, i: nat, from: nat)
    requires from <= i <= |source|
    ensures AreSlices(Cuts(unit, source, i, from), source)
    decreases |source| - i
  {
    hide Look, Resolve, Slice, IsSlice;
    if i == |source| {
      SliceIsSlice(unit, source, from, i);
    } else {
      var item := Look(source, i);
      match item
      case Skip(next) => CutsAreSlices(unit, source, next, from);
      case Directive(_, end) =>
        SliceIsSlice(unit, source, from, i);
        CutsAreSlices(unit, source, end + 1, end + 1);
      case _ =>
    }
  }

  // ----- each file is entered once -----

  predicate KeysOnce(w: World, st: State) {
    && (forall u :: 0 <= u < |st.heads| && st.heads[u].kind == Import ==> w.key(st.heads[u].path) in st.expanded)
    && (forall u, v :: 0 <= u < v < |st.heads| && st.heads[u].kind == Import && st.heads[v].kind == Import ==>
          w.key(st.heads[u].path) != w.key(st.heads[v].path))
    && (forall k :: k in st.expanded ==> exists u :: 0 <= u < |st.heads| && st.heads[u].kind == Import && w.key(st.heads[u].path) == k)
  }

  lemma {:induction false} EnterOnce(w: World, path: string, st: State)
    requires KeysOnce(w, st) && w.key(path) !in st.expanded
    ensures KeysOnce(w, Enter(w, path, st))
  {
    var after := Enter(w, path, st);
    assert after.heads[|st.heads|].path == path;
    forall k | k in after.expanded
      ensures exists u :: 0 <= u < |after.heads| && after.heads[u].kind == Import && w.key(after.heads[u].path) == k
    {
      if k != w.key(path) {
        var u :| 0 <= u < |st.heads| && st.heads[u].kind == Import && w.key(st.heads[u].path) == k;
        assert after.heads[u] == st.heads[u];
      }
    }
  }

  lemma {:induction false} SeparateOnce(w: World, before: State, after: State)
    requires KeysOnce(w, after)
    ensures KeysOnce(w, Separate(before, after))
  {
    hide LogText;
    var apart := Separate(before, after);
    forall k | k in apart.expanded
      ensures exists u :: 0 <= u < |apart.heads| && apart.heads[u].kind == Import && w.key(apart.heads[u].path) == k
    {
      var u :| 0 <= u < |after.heads| && after.heads[u].kind == Import && w.key(after.heads[u].path) == k;
      assert apart.heads[u] == after.heads[u];
    }
  }

  lemma {:induction false} ExpandOnce(w: World, base: string, source: string, i: nat, copied: nat, unit: nat, st: State)
    requires copied <= i <= |source| && KeysOnce(w, st)
    ensures var r := Expand(w, base, source, i, copied, unit, st); r.Ok? ==> KeysOnce(w, r.value)
    decreases |Open(w, st.expanded)|, 1, |source| - i
  {
    hide KeysOnce, Look, Resolve, Slice, Load;
    AppendOnce(w, st, Slice(unit, source, copied, i));
    if i < |source| {
      var item := Look(source, i);
      match item
      case Skip(next) => ExpandOnce(w, base, source, next, copied, unit, st);
      case Directive(start, end) =>
        var files := Resolve(w, base, source[start..end]);
        if files.Ok? {
          DirectiveOnce(w, base, source, i, unit, Append(st, Slice(unit, source, copied, i)), end, files.value);
        }
      case _ =>
    }
  }

  lemma {:induction false} DirectiveOnce(w: World, base: string, source: string, i: nat, unit: nat, cut: State, end: nat, paths: seq<string>)
    requires i < end < |source| && KeysOnce(w, cut)
    ensures var loaded := Load(w, paths, cut);
            loaded.Ok? ==>
              var r := Expand(w, base, source, end + 1, end + 1, unit, loaded.value);
              r.Ok? ==> KeysOnce(w, r.value)
    decreases |Open(w, cut.expanded)|, 1, |source| - i - 1
  {
    hide KeysOnce, Expand, Load, Open;
    LoadOnce(w, paths, cut);
    var loaded := Load(w, paths, cut);
    if loaded.Ok? {
      OpenShrinks(w, cut.expanded, loaded.value.expanded);
      ExpandOnce(w, base, source, end + 1, end + 1, unit, loaded.value);
    }
  }

  lemma {:induction false} AppendOnce(w: World, st: State, pieces: seq<Piece>)
    requires KeysOnce(w, st)
    ensures KeysOnce(w, Append(st, pieces))
  {
  }

  lemma {:induction false} LoadOnce(w: World, paths: seq<string>, st: State)
    requires KeysOnce(w, st)
    ensures var r := Load(w, paths, st); r.Ok? ==> KeysOnce(w, r.value)
    decreases |Open(w, st.expanded)|, 0, |paths|
  {
    hide KeysOnce, Separate;
    if paths != [] {
      if w.key(paths[0]) in st.expanded {
        LoadOnce(w, paths[1..], st);
      } else if paths[0] in w.files {
        var entered := Enter(w, paths[0], st);
        assert w.key(paths[0]) in Keys(w);
        SubsetSize(Open(w, entered.expanded), Open(w, st.expanded));
        EnterOnce(w, paths[0], st);
        ExpandOnce(w, w.parent(paths[0]), w.files[paths[0]], 0, 0, |st.heads|, entered);
        var r := Expand(w, w.parent(paths[0]), w.files[paths[0]], 0, 0, |st.heads|, entered);
        if r.Ok? {
          SeparateOnce(w, st, r.value);
          SeparateKeeps(st, r.value);
          SubsetSize(Open(w, r.value.expanded), Open(w, st.expanded));
          LoadOnce(w, paths[1..], Separate(st, r.value));
        }
      }
    }
  }

  lemma {:induction false} SeparateKeeps(before: State, after: State)
    ensures Separate(before, after).expanded == after.expanded
  {
    hide LogText;
  }
}
