/** When expansion succeeds: exactly when nothing it needs is missing or broken. */
module ImportSuccess {
  import opened Ir
  import opened Sets
  import opened Positions
  import opened SourceBuilder
  import opened ImportScan
  import opened ImportPayload
  import opened Imports

  /** From `i` on every directive ends, is no legacy one, and stands for files of `s`. */
  predicate IsSound(w: World, base: string, source: string, i: nat, s: set<string>)
    requires i <= |source|
    decreases |source| - i
  {
    i == |source| ||
    match Look(source, i)
    case Skip(next) => IsSound(w, base, source, next, s)
    case Directive(start, end) =>
      var files := Resolve(w, base, source[start..end]);
      files.Ok? && (forall p :: p in files.value ==> p in s) && IsSound(w, base, source, end + 1, s)
    case _ => false
  }

  /** A set of existing files that no directive of theirs leaves. */
  predicate IsClosed(w: World, s: set<string>) {
    forall p :: p in s ==> p in w.files && IsSound(w, w.parent(p), w.files[p], 0, s)
  }

  // ----- a closed set is enough -----

  lemma {:induction false} ExpandSucceeds(
    w: World, base: string, source: string, i: nat, copied: nat, unit: nat, st: State, s: set<string>)
    requires copied <= i <= |source| && IsClosed(w, s) && IsSound(w, base, source, i, s)
    ensures Expand(w, base, source, i, copied, unit, st).Ok?
    decreases |Open(w, st.expanded)|, 1, |source| - i
  {
    hide Look, Resolve, Slice, IsClosed;
    if i < |source| {
      var item := Look(source, i);
      match item
      case Skip(next) => ExpandSucceeds(w, base, source, next, copied, unit, st, s);
      case Directive(start, end) =>
        var paths := Resolve(w, base, source[start..end]).value;
        var cut := Append(st, Slice(unit, source, copied, i));
        LoadSucceeds(w, paths, cut, s);
        var after := Load(w, paths, cut).value;
        SubsetSize(Open(w, after.expanded), Open(w, st.expanded));
        ExpandSucceeds(w, base, source, end + 1, end + 1, unit, after, s);
      case _ =>
    }
  }

  lemma {:induction false} LoadSucceeds(w: World, paths: seq<string>, st: State, s: set<string>)
    requires IsClosed(w, s) && forall p :: p in paths ==> p in s
    ensures Load(w, paths, st).Ok?
    decreases |Open(w, st.expanded)|, 0, |paths|
  {
    hide Separate, IsSound;
    if paths != [] {
      assert paths[0] in s;
      if w.key(paths[0]) in st.expanded {
        LoadSucceeds(w, paths[1..], st, s);
      } else {
        var entered := Enter(w, paths[0], st);
        assert w.key(paths[0]) in Keys(w);
        SubsetSize(Open(w, entered.expanded), Open(w, st.expanded));
        ExpandSucceeds(w, w.parent(paths[0]), w.files[paths[0]], 0, 0, |st.heads|, entered, s);
        var after := Expand(w, w.parent(paths[0]), w.files[paths[0]], 0, 0, |st.heads|, entered).value;
        SeparateKeeps(st, after);
        SubsetSize(Open(w, after.expanded), Open(w, st.expanded));
        LoadSucceeds(w, paths[1..], Separate(st, after), s);
      }
    }
  }

  /** Cycles are no error: expansion succeeds from every file of a closed set. */
  lemma {:induction false} ExpansionSucceeds(w: World, input: string, s: set<string>)
    requires IsClosed(w, s) && input in s
    ensures ExpandImports(w, input).Ok?
  {
    hide Expand, IsSound;
    ExpandSucceeds(w, w.parent(input), w.files[input], 0, 0, 0, State({}, [Header(Primary, input, "", ORIGIN)], []), s);
  }

  // ----- and needed -----

  /** From `i` on every directive is in order, and its files are among those expanded. */
  predicate IsCovered(w: World, base: string, source: string, i: nat, expanded: set<string>)
    requires i <= |source|
    decreases |source| - i
  {
    i == |source| ||
    match Look(source, i)
    case Skip(next) => IsCovered(w, base, source, next, expanded)
    case Directive(start, end) =>
      var files := Resolve(w, base, source[start..end]);
      files.Ok? && (forall p :: p in files.value ==> w.key(p) in expanded) && IsCovered(w, base, source, end + 1, expanded)
    case _ => false
  }

  lemma {:induction false} CoveredByMore(w: World, base: string, source: string, i: nat, few: set<string>, many: set<string>)
    requires i <= |source| && few <= many && IsCovered(w, base, source, i, few)
    ensures IsCovered(w, base, source, i, many)
    decreases |source| - i
  {
    hide Look, Resolve;
    if i < |source| {
      var item := Look(source, i);
      match item
      case Skip(next) => CoveredByMore(w, base, source, next, few, many);
      case Directive(_, end) => CoveredByMore(w, base, source, end + 1, few, many);
      case _ =>
    }
  }

  predicate UnitCovered(w: World, h: Header, expanded: set<string>) {
    h.kind == Import ==> h.path in w.files && IsCovered(w, w.parent(h.path), w.files[h.path], 0, expanded)
  }

  /** The units created behind the first `n` are covered. */
  predicate NewCovered(w: World, n: nat, t: State) {
    n <= |t.heads| && forall v :: n <= v < |t.heads| ==> UnitCovered(w, t.heads[v], t.expanded)
  }

  /** Covered units stay covered when units are added that are covered. */
  lemma {:induction false} CoveredOn(w: World, n: nat, a: State, b: State)
    requires NewCovered(w, n, a) && NewCovered(w, |a.heads|, b)
    requires a.expanded <= b.expanded && b.heads[..|a.heads|] == a.heads
    ensures NewCovered(w, n, b)
  {
    hide IsCovered;
    forall v | n <= v < |b.heads|
      ensures UnitCovered(w, b.heads[v], b.expanded)
    {
      if v < |a.heads| {
        assert b.heads[..|a.heads|][v] == a.heads[v] && UnitCovered(w, a.heads[v], a.expanded);
        var h := a.heads[v];
        if h.kind == Import {
          CoveredByMore(w, w.parent(h.path), w.files[h.path], 0, a.expanded, b.expanded);
        }
      }
    }
  }

  predicate Extends(a: State, b: State) {
    a.expanded <= b.expanded && |a.heads| <= |b.heads| && b.heads[..|a.heads|] == a.heads
  }

  lemma {:induction false} ExtendsOn(a: State, b: State, c: State)
    requires Extends(a, b) && Extends(b, c)
    ensures Extends(a, c)
  {
    assert c.heads[..|a.heads|] == c.heads[..|b.heads|][..|a.heads|];
  }

  lemma {:induction false} NothingNew(w: World, st: State, pieces: seq<Piece>)
    ensures NewCovered(w, |st.heads|, Append(st, pieces))
  {
  }

  lemma {:induction false} ExpandCovers(w: World, base: string, source: string, i: nat, copied: nat, unit: nat, st: State)
    requires copied <= i <= |source|
    ensures var r := Expand(w, base, source, i, copied, unit, st);
            r.Ok? ==> && Extends(st, r.value) && NewCovered(w, |st.heads|, r.value)
                      && IsCovered(w, base, source, i, r.value.expanded)
    decreases |Open(w, st.expanded)|, 1, |source| - i
  {
    hide Look, Resolve, Slice, UnitCovered, NewCovered, Load;
    NothingNew(w, st, Slice(unit, source, copied, i));
    if i < |source| {
      var item := Look(source, i);
      match item
      case Skip(next) => ExpandCovers(w, base, source, next, copied, unit, st);
      case Directive(start, end) =>
        var files := Resolve(w, base, source[start..end]);
        if files.Ok? {
          DirectiveCovers(w, base, source, i, unit, Append(st, Slice(unit, source, copied, i)), end, files.value);
        }
      case _ =>
    }
  }

  lemma {:induction false} DirectiveCovers(
    w: World, base: string, source: string, i: nat, unit: nat, cut: State, end: nat, paths: seq<string>)
    requires i < end < |source|
    ensures var loaded := Load(w, paths, cut);
            loaded.Ok? ==>
              var r := Expand(w, base, source, end + 1, end + 1, unit, loaded.value);
              r.Ok? ==> && Extends(cut, r.value) && NewCovered(w, |cut.heads|, r.value)
                        && (forall p :: p in paths ==> w.key(p) in r.value.expanded)
                        && IsCovered(w, base, source, end + 1, r.value.expanded)
    decreases |Open(w, cut.expanded)|, 1, |source| - i - 1
  {
    hide UnitCovered, Expand, Load, NewCovered, IsCovered, Open;
    LoadCovers(w, paths, cut);
    var loaded := Load(w, paths, cut);
    if loaded.Ok? {
      OpenShrinks(w, cut.expanded, loaded.value.expanded);
      ExpandCovers(w, base, source, end + 1, end + 1, unit, loaded.value);
      var r := Expand(w, base, source, end + 1, end + 1, unit, loaded.value);
      if r.Ok? {
        ExtendsOn(cut, loaded.value, r.value);
        CoveredOn(w, |cut.heads|, loaded.value, r.value);
      }
    }
  }

  lemma {:induction false} SeparateCovers(w: World, before: State, after: State)
    ensures var t := Separate(before, after);
            Extends(after, t) && NewCovered(w, |after.heads|, t) && t.expanded == after.expanded
  {
    hide LogText, IsCovered;
  }

  /** An entered file, expanded, is a covered unit. */
  lemma {:induction false} EnterCovers(w: World, path: string, st: State, t: State)
    requires path in w.files && Extends(Enter(w, path, st), t) && NewCovered(w, |st.heads| + 1, t)
    requires IsCovered(w, w.parent(path), w.files[path], 0, t.expanded)
    ensures Extends(st, t) && NewCovered(w, |st.heads|, t) && w.key(path) in t.expanded
  {
    hide IsCovered;
    var n, entered := |st.heads|, Enter(w, path, st);
    assert t.heads[..n] == t.heads[..n + 1][..n] && t.heads[..n + 1][n] == entered.heads[n];
    assert entered.heads[..n] == st.heads;
  }

  lemma {:induction false} LoadCovers(w: World, paths: seq<string>, st: State)
    ensures var r := Load(w, paths, st);
            r.Ok? ==> && Extends(st, r.value) && NewCovered(w, |st.heads|, r.value)
                      && (forall p :: p in paths ==> w.key(p) in r.value.expanded)
    decreases |Open(w, st.expanded)|, 0, |paths|
  {
    hide Separate, UnitCovered, IsCovered;
    if paths != [] {
      if w.key(paths[0]) in st.expanded {
        LoadCovers(w, paths[1..], st);
      } else if paths[0] in w.files {
        var entered := Enter(w, paths[0], st);
        assert w.key(paths[0]) in Keys(w);
        SubsetSize(Open(w, entered.expanded), Open(w, st.expanded));
        ExpandCovers(w, w.parent(paths[0]), w.files[paths[0]], 0, 0, |st.heads|, entered);
        var r := Expand(w, w.parent(paths[0]), w.files[paths[0]], 0, 0, |st.heads|, entered);
        if r.Ok? {
          FileCovers(w, paths, st, r.value);
        }
      }
    }
  }

  lemma {:induction false} FileCovers(w: World, paths: seq<string>, st: State, t: State)
    requires paths != [] && paths[0] in w.files && w.key(paths[0]) !in st.expanded
    requires Extends(Enter(w, paths[0], st), t) && NewCovered(w, |st.heads| + 1, t)
    requires IsCovered(w, w.parent(paths[0]), w.files[paths[0]], 0, t.expanded)
    ensures var r := Load(w, paths[1..], Separate(st, t));
            r.Ok? ==> && Extends(st, r.value) && NewCovered(w, |st.heads|, r.value)
                      && (forall p :: p in paths ==> w.key(p) in r.value.expanded)
    decreases |Open(w, st.expanded)|, 0, |paths| - 1, 1
  {
    hide Separate, UnitCovered, IsCovered, NewCovered, Load;
    EnterCovers(w, paths[0], st, t);
    SeparateCovers(w, st, t);
    var apart := Separate(st, t);
    ExtendsOn(st, t, apart);
    CoveredOn(w, |st.heads|, t, apart);
    SubsetSize(Open(w, apart.expanded), Open(w, st.expanded));
    LoadCovers(w, paths[1..], apart);
    var r := Load(w, paths[1..], apart);
    if r.Ok? {
      ExtendsOn(st, apart, r.value);
      CoveredOn(w, |st.heads|, apart, r.value);
      assert forall p :: p in paths ==> p == paths[0] || p in paths[1..];
    }
  }

  // ----- names of one file -----

  /** The keys of the files a payload stands for, if it stands for any. */
  function KeysOf(w: World, files: Outcome<seq<string>>): Option<set<string>> {
    match files case Fail(_) => None case Ok(paths) => Some(set p | p in paths :: w.key(p))
  }

  /** Two names with one key are names of one file: they have the same text, and its directives
      stand for the same files, be it under other names. */
  ghost predicate NamesAgree(w: World) {
    forall p, q :: p in w.files && q in w.files && w.key(p) == w.key(q) ==>
      && w.files[p] == w.files[q]
      && forall payload :: KeysOf(w, Resolve(w, w.parent(p), payload)) == KeysOf(w, Resolve(w, w.parent(q), payload))
  }

  lemma {:induction false} CoveredAlike(w: World, base: string, other: string, source: string, i: nat, expanded: set<string>)
    requires i <= |source| && IsCovered(w, base, source, i, expanded)
    requires forall payload :: KeysOf(w, Resolve(w, base, payload)) == KeysOf(w, Resolve(w, other, payload))
    ensures IsCovered(w, other, source, i, expanded)
    decreases |source| - i
  {
    hide Look, Resolve;
    if i < |source| {
      var item := Look(source, i);
      match item
      case Skip(next) => CoveredAlike(w, base, other, source, next, expanded);
      case Directive(start, end) =>
        CoveredAlike(w, base, other, source, end + 1, expanded);
        var payload := source[start..end];
        SameKeysCovered(w, Resolve(w, base, payload), Resolve(w, other, payload), expanded);
      case _ =>
    }
  }

  lemma {:induction false} SameKeysCovered(w: World, files: Outcome<seq<string>>, others: Outcome<seq<string>>, expanded: set<string>)
    requires KeysOf(w, files) == KeysOf(w, others) && files.Ok? && forall p :: p in files.value ==> w.key(p) in expanded
    ensures others.Ok? && forall p :: p in others.value ==> w.key(p) in expanded
  {
    forall p | p in others.value
      ensures w.key(p) in expanded
    {
      assert w.key(p) in KeysOf(w, others).value;
      var q :| q in files.value && w.key(q) == w.key(p);
    }
  }

  // ----- the keys expanded are those that can be reached -----

  /** No directive of a file with a key in the set leaves the set. */
  predicate IsKeyClosed(w: World, keys: set<string>) {
    forall p :: p in w.files && w.key(p) in keys ==> IsCovered(w, w.parent(p), w.files[p], 0, keys)
  }

  /** A set of keys that holds what the input names, and what is named there, and so on. */
  predicate Encloses(w: World, input: string, keys: set<string>)
    requires input in w.files
  {
    IsKeyClosed(w, keys) && IsCovered(w, w.parent(input), w.files[input], 0, keys)
  }

  lemma {:induction false} ExpandStaysIn(
    w: World, base: string, source: string, i: nat, copied: nat, unit: nat, st: State, keys: set<string>)
    requires copied <= i <= |source| && IsKeyClosed(w, keys) && IsCovered(w, base, source, i, keys) && st.expanded <= keys
    ensures var r := Expand(w, base, source, i, copied, unit, st); r.Ok? ==> r.value.expanded <= keys
    decreases |Open(w, st.expanded)|, 1, |source| - i
  {
    hide Look, Resolve, Slice, IsKeyClosed, Load;
    if i < |source| {
      var item := Look(source, i);
      match item
      case Skip(next) => ExpandStaysIn(w, base, source, next, copied, unit, st, keys);
      case Directive(start, end) =>
        var paths := Resolve(w, base, source[start..end]).value;
        var cut := Append(st, Slice(unit, source, copied, i));
        LoadStaysIn(w, paths, cut, keys);
        var loaded := Load(w, paths, cut);
        if loaded.Ok? {
          OpenShrinks(w, st.expanded, loaded.value.expanded);
          ExpandStaysIn(w, base, source, end + 1, end + 1, unit, loaded.value, keys);
        }
      case _ =>
    }
  }

  lemma {:induction false} LoadStaysIn(w: World, paths: seq<string>, st: State, keys: set<string>)
    requires IsKeyClosed(w, keys) && st.expanded <= keys && forall p :: p in paths ==> w.key(p) in keys
    ensures var r := Load(w, paths, st); r.Ok? ==> r.value.expanded <= keys
    decreases |Open(w, st.expanded)|, 0, |paths|
  {
    hide Separate, IsCovered;
    if paths != [] {
      assert paths[0] in paths;
      if w.key(paths[0]) in st.expanded {
        LoadStaysIn(w, paths[1..], st, keys);
      } else if paths[0] in w.files {
        var entered := Enter(w, paths[0], st);
        assert w.key(paths[0]) in Keys(w);
        SubsetSize(Open(w, entered.expanded), Open(w, st.expanded));
        ExpandStaysIn(w, w.parent(paths[0]), w.files[paths[0]], 0, 0, |st.heads|, entered, keys);
        var r := Expand(w, w.parent(paths[0]), w.files[paths[0]], 0, 0, |st.heads|, entered);
        if r.Ok? {
          SeparateKeeps(st, r.value);
          SubsetSize(Open(w, r.value.expanded), Open(w, st.expanded));
          LoadStaysIn(w, paths[1..], Separate(st, r.value), keys);
        }
      }
    }
  }

  lemma {:induction false} FirstIsOnce(w: World, input: string)
    ensures KeysOnce(w, State({}, [Header(Primary, input, "", ORIGIN)], []))
  {
  }

  /** What is known of a finished expansion. */
  lemma {:induction false} FinishedExpansion(w: World, input: string)
    requires ExpandImports(w, input).Ok?
    ensures var st := ExpandImports(w, input).value;
            && input in w.files && KeysOnce(w, st) && IsCovered(w, w.parent(input), w.files[input], 0, st.expanded)
            && st.heads != [] && st.heads[0] == Header(Primary, input, "", ORIGIN) && NewCovered(w, 0, st)
  {
    hide Expand, IsCovered, KeysOnce;
    var first := State({}, [Header(Primary, input, "", ORIGIN)], []);
    ExpandCovers(w, w.parent(input), w.files[input], 0, 0, 0, first);
    FirstIsOnce(w, input);
    ExpandOnce(w, w.parent(input), w.files[input], 0, 0, 0, first);
    var st := ExpandImports(w, input).value;
    assert st.heads[..1][0] == first.heads[0];
  }

  /** Every key expanded is the key of an Import unit, whose file is covered. */
  lemma {:induction false} ExpandedHasUnit(w: World, st: State, k: string) returns (u: nat)
    requires KeysOnce(w, st) && NewCovered(w, 0, st) && k in st.expanded
    ensures u < |st.heads| && st.heads[u].kind == Import && w.key(st.heads[u].path) == k && st.heads[u].path in w.files
    ensures IsCovered(w, w.parent(st.heads[u].path), w.files[st.heads[u].path], 0, st.expanded)
  {
    hide IsCovered;
    u :| u < |st.heads| && st.heads[u].kind == Import && w.key(st.heads[u].path) == k;
    assert UnitCovered(w, st.heads[u], st.expanded);
  }

  /** The keys expanded are those of existing files, they enclose the input, and no smaller set does. */
  lemma {:induction false} ExpandedIsLeast(w: World, input: string)
    requires NamesAgree(w) && ExpandImports(w, input).Ok?
    ensures var expanded := ExpandImports(w, input).value.expanded;
            && input in w.files && expanded <= Keys(w) && Encloses(w, input, expanded)
            && forall keys: set<string> :: Encloses(w, input, keys) ==> expanded <= keys
  {
    hide Expand, IsCovered, KeysOnce, NewCovered, Resolve;
    FinishedExpansion(w, input);
    var st := ExpandImports(w, input).value;
    forall p | p in w.files && w.key(p) in st.expanded
      ensures IsCovered(w, w.parent(p), w.files[p], 0, st.expanded)
    {
      var u := ExpandedHasUnit(w, st, w.key(p));
      CoveredAlike(w, w.parent(st.heads[u].path), w.parent(p), w.files[p], 0, st.expanded);
    }
    forall k | k in st.expanded
      ensures k in Keys(w)
    {
      var u := ExpandedHasUnit(w, st, k);
    }
    forall keys: set<string> | Encloses(w, input, keys)
      ensures st.expanded <= keys
    {
      ExpandStaysIn(w, w.parent(input), w.files[input], 0, 0, 0, State({}, [Header(Primary, input, "", ORIGIN)], []), keys);
    }
  }

  /** The input is not among the files expanded at the start: it gets an Import unit beside its
      own exactly if its directives, or those of the files they name, lead back to it. */
  lemma {:induction false} InputIsEnteredAgain(w: World, input: string)
    requires NamesAgree(w) && ExpandImports(w, input).Ok?
    ensures input in w.files
    ensures (exists u :: 0 <= u < |ExpandImports(w, input).value.heads| && ExpandImports(w, input).value.heads[u].kind == Import
                         && w.key(ExpandImports(w, input).value.heads[u].path) == w.key(input))
            <==> forall keys: set<string> :: Encloses(w, input, keys) ==> w.key(input) in keys
  {
    hide ExpandImports, Encloses, NamesAgree, NewCovered;
    ExpandedIsLeast(w, input);
    FinishedExpansion(w, input);
    var st := ExpandImports(w, input).value;
    if w.key(input) in st.expanded {
      var u := ExpandedHasUnit(w, st, w.key(input));
    }
  }

  // ----- success, exactly -----

  /** From `i` on every file named that exists under some name exists under the name given. */
  predicate IsNamed(w: World, base: string, source: string, i: nat)
    requires i <= |source|
    decreases |source| - i
  {
    i == |source| ||
    match Look(source, i)
    case Skip(next) => IsNamed(w, base, source, next)
    case Directive(start, end) =>
      var files := Resolve(w, base, source[start..end]);
      && (files.Ok? ==> forall p :: p in files.value && w.key(p) in Keys(w) ==> p in w.files)
      && IsNamed(w, base, source, end + 1)
    case _ => true
  }

  predicate NamesExist(w: World) { forall p :: p in w.files ==> IsNamed(w, w.parent(p), w.files[p], 0) }

  lemma {:induction false} EnclosedSucceeds(
    w: World, base: string, source: string, i: nat, copied: nat, unit: nat, st: State, keys: set<string>)
    requires copied <= i <= |source| && IsKeyClosed(w, keys) && keys <= Keys(w) && NamesExist(w)
    requires IsCovered(w, base, source, i, keys) && IsNamed(w, base, source, i)
    ensures Expand(w, base, source, i, copied, unit, st).Ok?
    decreases |Open(w, st.expanded)|, 1, |source| - i
  {
    hide Look, Resolve, Slice, IsKeyClosed, NamesExist, Load, Keys;
    if i < |source| {
      var item := Look(source, i);
      match item
      case Skip(next) => EnclosedSucceeds(w, base, source, next, copied, unit, st, keys);
      case Directive(start, end) =>
        var paths := Resolve(w, base, source[start..end]).value;
        var cut := Append(st, Slice(unit, source, copied, i));
        EnclosedLoads(w, paths, cut, keys);
        var after := Load(w, paths, cut).value;
        OpenShrinks(w, st.expanded, after.expanded);
        EnclosedSucceeds(w, base, source, end + 1, end + 1, unit, after, keys);
      case _ =>
    }
  }

  lemma {:induction false} EnclosedLoads(w: World, paths: seq<string>, st: State, keys: set<string>)
    requires IsKeyClosed(w, keys) && keys <= Keys(w) && NamesExist(w)
    requires forall p :: p in paths ==> w.key(p) in keys && p in w.files
    ensures Load(w, paths, st).Ok?
    decreases |Open(w, st.expanded)|, 0, |paths|
  {
    hide Separate, IsCovered, IsNamed;
    if paths != [] {
      assert paths[0] in paths;
      if w.key(paths[0]) in st.expanded {
        EnclosedLoads(w, paths[1..], st, keys);
      } else {
        var entered := Enter(w, paths[0], st);
        assert w.key(paths[0]) in Keys(w);
        SubsetSize(Open(w, entered.expanded), Open(w, st.expanded));
        EnclosedSucceeds(w, w.parent(paths[0]), w.files[paths[0]], 0, 0, |st.heads|, entered, keys);
        var after := Expand(w, w.parent(paths[0]), w.files[paths[0]], 0, 0, |st.heads|, entered).value;
        SeparateKeeps(st, after);
        SubsetSize(Open(w, after.expanded), Open(w, st.expanded));
        EnclosedLoads(w, paths[1..], Separate(st, after), keys);
      }
    }
  }

  /** Expansion succeeds if and only if some set of keys of existing files encloses the input:
      every directive that can be reached ends, is no legacy one and stands for existing files. */
  lemma {:induction false} SuccessIsClosure(w: World, input: string)
    requires NamesAgree(w) && NamesExist(w)
    ensures ExpandImports(w, input).Ok? <==>
            input in w.files && exists keys: set<string> :: keys <= Keys(w) && Encloses(w, input, keys)
  {
    hide Expand, IsCovered, IsNamed, IsKeyClosed, NamesAgree, Keys;
    if ExpandImports(w, input).Ok? {
      ExpandedIsLeast(w, input);
    }
    if input in w.files && exists keys: set<string> :: keys <= Keys(w) && Encloses(w, input, keys) {
      var keys: set<string> :| keys <= Keys(w) && Encloses(w, input, keys);
      EnclosedSucceeds(w, w.parent(input), w.files[input], 0, 0, 0, State({}, [Header(Primary, input, "", ORIGIN)], []), keys);
    }
  }
}
