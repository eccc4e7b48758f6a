/** Two files that import each other: the input is copied twice. */
module ImportCycle {
  import opened Ir
  import opened Texts
  import opened Positions
  import opened SourceBuilder
  import opened ImportScan
  import opened ImportPayload
  import opened ImportGrammar
  import opened ImportReading
  import opened Imports

  /** A file that is nothing but the import of one other. */
  function Sole(path: string): string { DirectiveText([], QuotedText('"', path)) }

  /** A world in which every name is the path of its own file. */
  function Plain(files: map<string, string>): World {
    World(files, p => p, p => "", (_: string, e: Entry, _: Option<seq<nat>>) => Ok(Found(e.path, None)), p => Ok([p]))
  }

  predicate IsName(path: string) { IsTrimmed(path) && '"' !in path && '\\' !in path }

  lemma {:induction false} SoleIsFound(path: string)
    requires IsName(path)
    ensures |Sole(path)| == |path| + 10 && Look(Sole(path), 0) == Directive(7, |path| + 9)
    ensures Sole(path)[7..|path| + 9] == QuotedText('"', path)
    ensures Read(QuotedText('"', path)) == Ok(Payload([Entry(path, false)], None))
  {
    hide Look, Read, Escape, Trim, IsTrimmed, At;
    PlainIsUnescaped(path);
    EscapedPathIsRead(path);
    TrimmedStays(path);
    SoleStands(path);
    QuotedImportIsFound(Sole(path), 0, [], path);
  }

  lemma {:induction false} SoleStands(path: string)
    ensures Stands(Sole(path), 0, DirectiveText([], QuotedText('"', path))) && GapsOk([]) && GapsText([]) == ""
    ensures |Sole(path)| == |path| + 10
  {
    assert Sole(path)[0..|Sole(path)|] == Sole(path);
  }

  lemma {:induction false} SoleResolves(files: map<string, string>, path: string)
    requires Read(QuotedText('"', path)) == Ok(Payload([Entry(path, false)], None))
    ensures Resolve(Plain(files), "", QuotedText('"', path)) == Ok([path])
  {
    hide Read;
    var w := Plain(files);
    var entry := Entry(path, false);
    assert [entry][1..] == [] && ResolveEntries(w, "", [], None, None) == Ok([]);
    assert ResolveEntry(w, "", entry, None, None) == Ok(Chosen([path], None));
    assert [path] + [] == [path];
  }

  /** Expanding such a file is loading the other. */
  lemma {:induction false} SoleLoads(files: map<string, string>, path: string, unit: nat, st: State)
    requires IsName(path)
    ensures Expand(Plain(files), "", Sole(path), 0, 0, unit, st) == Load(Plain(files), [path], st)
  {
    hide Look, Read, Load, IsName, Resolve, Sole;
    SoleIsFound(path);
    SoleResolves(files, path);
    var source, w := Sole(path), Plain(files);
    assert Append(st, Slice(unit, source, 0, 0)) == st;
    var loaded := Load(w, [path], st);
    if loaded.Ok? {
      var after := loaded.value;
      assert Append(after, Slice(unit, source, |source|, |source|)) == after;
      assert Expand(w, "", source, |source|, |source|, unit, after) == Ok(after);
    }
  }

  /** Loading one file that has been seen, or that adds no text. */
  lemma {:induction false} LoadOne(w: World, path: string, st: State, after: State)
    requires w.key(path) in st.expanded ==> after == st
    requires w.key(path) !in st.expanded ==>
               && path in w.files && after.log == st.log
               && Expand(w, w.parent(path), w.files[path], 0, 0, |st.heads|, Enter(w, path, st)) == Ok(after)
    ensures Load(w, [path], st) == Ok(after)
  {
    hide Expand, LogText, EndsWithNewline;
    assert [path][1..] == [] && forall t :: Load(w, [], t) == Ok(t);
  }

  /** Two files that import each other and have no text of their own give three units: the input
      as the primary one, the other file, and the input again as an import. */
  lemma {:induction false} CycleEntersInput(a: string, b: string)
    requires IsName(a) && IsName(b) && a != b
    ensures var r := ExpandImports(Plain(map[a := Sole(b), b := Sole(a)]), a);
            && r.Ok? && r.value.expanded == {a, b}
            && r.value.heads == [Header(Primary, a, "", ORIGIN), Header(Import, b, "", ORIGIN), Header(Import, a, "", ORIGIN)]
  {
    hide Expand, Load, IsName, Sole;
    var files := map[a := Sole(b), b := Sole(a)];
    var w := Plain(files);
    var first := State({}, [Header(Primary, a, "", ORIGIN)], []);
    var second := Enter(w, b, first);
    var third := Enter(w, a, second);
    LoadOne(w, b, third, third);
    SoleLoads(files, b, 2, third);
    LoadOne(w, a, second, third);
    SoleLoads(files, a, 1, second);
    LoadOne(w, b, first, third);
    SoleLoads(files, b, 0, first);
  }
}
