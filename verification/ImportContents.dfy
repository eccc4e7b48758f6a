/** What expansion makes of every file: exactly its text without import directives. */
module ImportContents {
  import opened Sets
  import opened Positions
  import opened SourceBuilder
  import opened ImportScan
  import opened Imports

  /** The pieces one unit contributed, in their order. */
  function UnitPieces(log: seq<Piece>, u: nat): seq<Piece> {
    if log == [] then []
    else UnitPieces(log[..|log| - 1], u) + (if log[|log| - 1].unit == u then [log[|log| - 1]] else [])
  }

  predicate AllOf(pieces: seq<Piece>, u: nat) { forall k :: 0 <= k < |pieces| ==> pieces[k].unit == u }

  lemma {:induction false} UnitConcat(a: seq<Piece>, b: seq<Piece>, u: nat)
    ensures UnitPieces(a + b, u) == UnitPieces(a, u) + UnitPieces(b, u)
    decreases |b|
  {
    if b == [] {
      assert a + b == a;
    } else {
      assert (a + b)[..|a + b| - 1] == a + b[..|b| - 1];
      UnitConcat(a, b[..|b| - 1], u);
    }
  }

  lemma {:induction false} UnitsOfOwn(pieces: seq<Piece>, u: nat, v: nat)
    requires AllOf(pieces, u)
    ensures UnitPieces(pieces, v) == if u == v then pieces else []
  {
    if pieces != [] {
      var n := |pieces| - 1;
      UnitsOfOwn(pieces[..n], u, v);
      assert pieces == pieces[..n] + [pieces[n]];
    }
  }

  lemma {:induction false} NoUnit(log: seq<Piece>, u: nat)
    requires UnitsExist(log, u)
    ensures UnitPieces(log, u) == []
  {
    if log != [] {
      NoUnit(log[..|log| - 1], u);
    }
  }

  lemma {:induction false} UnitMember(log: seq<Piece>, k: nat)
    requires k < |log|
    ensures log[k] in UnitPieces(log, log[k].unit)
    decreases |log|
  {
    var n := |log| - 1;
    if k < n {
      UnitMember(log[..n], k);
      assert log[..n][k] == log[k];
    }
  }

  // ----- what is true of a finished unit -----

  /** The unit holds all that expansion takes from its file. */
  predicate Complete(w: World, st: State, v: nat)
    requires v < |st.heads|
  {
    var h := st.heads[v];
    if h.kind == Import
    then h.path in w.files && Readable(w.files[h.path], 0) && UnitPieces(st.log, v) == Cuts(v, w.files[h.path], 0, 0)
    else h.kind == Generated && UnitPieces(st.log, v) == [Piece(v, "\n", NOWHERE)]
  }

  /** From `st` to `t` only unit `except` gained pieces, and every new unit is complete. */
  predicate Grows(w: World, st: State, t: State, except: int) {
    && |st.heads| <= |t.heads| && t.heads[..|st.heads|] == st.heads
    && UnitsExist(t.log, |t.heads|)
    && (forall v :: 0 <= v < |st.heads| && v != except ==> UnitPieces(t.log, v) == UnitPieces(st.log, v))
    && (forall v :: |st.heads| <= v < |t.heads| ==> Complete(w, t, v))
  }

  lemma {:induction false} GrowsOn(w: World, a: State, b: State, c: State, except: int, second: int)
    requires Grows(w, a, b, except) && Grows(w, b, c, second) && except < |a.heads|
    requires second == except || second == -1
    ensures Grows(w, a, c, except)
  {
    hide UnitPieces, Readable, Cuts;
    assert c.heads[..|a.heads|] == c.heads[..|b.heads|][..|a.heads|];
    forall v | |a.heads| <= v < |c.heads|
      ensures Complete(w, c, v)
    {
      if v < |b.heads| {
        assert Complete(w, b, v);
        assert c.heads[..|b.heads|][v] == b.heads[v];
      }
    }
  }

  lemma {:induction false} AppendGrows(w: World, st: State, pieces: seq<Piece>, unit: nat)
    requires AllOf(pieces, unit) && unit < |st.heads| && UnitsExist(st.log, |st.heads|)
    ensures Grows(w, st, Append(st, pieces), unit)
    ensures UnitPieces(Append(st, pieces).log, unit) == UnitPieces(st.log, unit) + pieces
  {
    hide UnitPieces;
    UnitConcat(st.log, pieces, unit);
    UnitsOfOwn(pieces, unit, unit);
    forall v | 0 <= v < |st.heads| && v != unit
      ensures UnitPieces(st.log + pieces, v) == UnitPieces(st.log, v)
    {
      UnitConcat(st.log, pieces, v);
      UnitsOfOwn(pieces, unit, v);
    }
  }

  lemma {:induction false} SeparateGrows(w: World, before: State, after: State)
    requires UnitsExist(after.log, |after.heads|)
    ensures Grows(w, after, Separate(before, after), -1)
  {
    hide UnitPieces, LogText, EndsWithNewline;
    var n := |after.heads|;
    var piece := Piece(n, "\n", NOWHERE);
    forall v | 0 <= v <= n
      ensures UnitPieces(after.log + [piece], v) == if v == n then [piece] else UnitPieces(after.log, v)
    {
      UnitConcat(after.log, [piece], v);
      UnitsOfOwn([piece], n, v);
      if v == n {
        NoUnit(after.log, n);
      }
    }
  }

  /** Entering a file and expanding it leaves a complete unit. */
  lemma {:induction false} EnterGrows(w: World, path: string, st: State, t: State)
    requires path in w.files && UnitsExist(st.log, |st.heads|)
    requires Grows(w, Enter(w, path, st), t, |st.heads|) && Readable(w.files[path], 0)
    requires UnitPieces(t.log, |st.heads|) == UnitPieces(st.log, |st.heads|) + Cuts(|st.heads|, w.files[path], 0, 0)
    ensures Grows(w, st, t, -1)
  {
    hide UnitPieces, Readable, Cuts;
    var n := |st.heads|;
    var entered := Enter(w, path, st);
    NoUnit(st.log, n);
    assert t.heads[..n] == t.heads[..n + 1][..n];
    assert t.heads[..n + 1][n] == entered.heads[n];
    assert entered.heads[..n] == st.heads;
    assert Complete(w, t, n);
  }

  lemma {:induction false} SliceIsOwn(unit: nat, source: string, from: nat, to: nat)
    requires from <= to <= |source|
    ensures AllOf(Slice(unit, source, from, to), unit)
  {
    hide CursorAt;
  }

  lemma {:induction false} ExpandGrows(w: World, base: string, source: string, i: nat, copied: nat, unit: nat, st: State)
    requires copied <= i <= |source| && unit < |st.heads| && UnitsExist(st.log, |st.heads|)
    ensures var r := Expand(w, base, source, i, copied, unit, st);
            r.Ok? ==> && Grows(w, st, r.value, unit) && Readable(source, i)
                      && UnitPieces(r.value.log, unit) == UnitPieces(st.log, unit) + Cuts(unit, source, i, copied)
    decreases |Open(w, st.expanded)|, 1, |source| - i
  {
    hide Look, Resolve, Slice, UnitPieces, Complete;
    SliceIsOwn(unit, source, copied, i);
    AppendGrows(w, st, Slice(unit, source, copied, i), unit);
    if i < |source| {
      var item := Look(source, i);
      match item
      case Skip(next) => ExpandGrows(w, base, source, next, copied, unit, st);
      case Directive(start, end) =>
        var files := Resolve(w, base, source[start..end]);
        if files.Ok? {
          DirectiveGrows(w, base, source, i, copied, unit, st, start, end, files.value);
        }
      case _ =>
    }
  }

  lemma {:induction false} GrowsTells(w: World, st: State, t: State, unit: nat, except: int)
    requires Grows(w, st, t, except) && unit < |st.heads|
    ensures unit < |t.heads| && UnitsExist(t.log, |t.heads|)
    ensures unit != except ==> UnitPieces(t.log, unit) == UnitPieces(st.log, unit)
  {
    hide UnitPieces, Complete;
  }

  lemma {:induction false} CutsBehindDirective(unit: nat, source: string, i: nat, copied: nat, start: nat, end: nat)
    requires copied <= i < end < |source| && start <= end && Look(source, i) == Directive(start, end)
    ensures Cuts(unit, source, i, copied) == Slice(unit, source, copied, i) + Cuts(unit, source, end + 1, end + 1)
    ensures Readable(source, i) == Readable(source, end + 1)
  {
    hide Look, Slice;
  }

  lemma {:induction false} DirectiveGrows(w: World, base: string, source: string, i: nat, copied: nat, unit: nat, st: State,
                                          start: nat, end: nat, paths: seq<string>)
    requires copied <= i < end < |source| && unit < |st.heads| && UnitsExist(st.log, |st.heads|)
    requires start <= end && Look(source, i) == Directive(start, end)
    ensures var cut := Append(st, Slice(unit, source, copied, i));
            var loaded := Load(w, paths, cut);
            loaded.Ok? ==>
              var r := Expand(w, base, source, end + 1, end + 1, unit, loaded.value);
              r.Ok? ==> && Grows(w, st, r.value, unit) && Readable(source, i)
                        && UnitPieces(r.value.log, unit) == UnitPieces(st.log, unit) + Cuts(unit, source, i, copied)
    decreases |Open(w, st.expanded)|, 1, |source| - i - 1
  {
    hide Look, Resolve, Slice, UnitPieces, Expand, Load, Grows, UnitsExist, Cuts, Readable, Open;
    CutsBehindDirective(unit, source, i, copied, start, end);
    var pieces := Slice(unit, source, copied, i);
    SliceIsOwn(unit, source, copied, i);
    AppendGrows(w, st, pieces, unit);
    var cut := Append(st, pieces);
    GrowsTells(w, st, cut, unit, unit);
    LoadGrows(w, paths, cut);
    var loaded := Load(w, paths, cut);
    if loaded.Ok? {
      GrowsOn(w, st, cut, loaded.value, unit, -1);
      GrowsTells(w, cut, loaded.value, unit, -1);
      OpenShrinks(w, st.expanded, loaded.value.expanded);
      ExpandGrows(w, base, source, end + 1, end + 1, unit, loaded.value);
      var r := Expand(w, base, source, end + 1, end + 1, unit, loaded.value);
      if r.Ok? {
        GrowsOn(w, st, loaded.value, r.value, unit, unit);
        assert UnitPieces(st.log, unit) + pieces + Cuts(unit, source, end + 1, end + 1)
            == UnitPieces(st.log, unit) + (pieces + Cuts(unit, source, end + 1, end + 1));
      }
    }
  }

  lemma {:induction false} LoadGrows(w: World, paths: seq<string>, st: State)
    requires UnitsExist(st.log, |st.heads|)
    ensures var r := Load(w, paths, st); r.Ok? ==> Grows(w, st, r.value, -1)
    decreases |Open(w, st.expanded)|, 0, |paths|
  {
    hide Separate, UnitPieces, Complete, Readable, Cuts;
    if paths != [] {
      if w.key(paths[0]) in st.expanded {
        LoadGrows(w, paths[1..], st);
      } else if paths[0] in w.files {
        var entered := Enter(w, paths[0], st);
        assert w.key(paths[0]) in Keys(w);
        SubsetSize(Open(w, entered.expanded), Open(w, st.expanded));
        ExpandGrows(w, w.parent(paths[0]), w.files[paths[0]], 0, 0, |st.heads|, entered);
        var r := Expand(w, w.parent(paths[0]), w.files[paths[0]], 0, 0, |st.heads|, entered);
        if r.Ok? {
          EnterGrows(w, paths[0], st, r.value);
          SeparateGrows(w, st, r.value);
          var apart := Separate(st, r.value);
          GrowsOn(w, st, r.value, apart, -1, -1);
          SeparateKeeps(st, r.value);
          SubsetSize(Open(w, apart.expanded), Open(w, st.expanded));
          LoadGrows(w, paths[1..], apart);
          var last := Load(w, paths[1..], apart);
          if last.Ok? {
            GrowsOn(w, st, apart, last.value, -1, -1);
          }
        }
      }
    }
  }

  // ----- the theorem -----

  predicate IsSourceUnit(w: World, h: Header) {
    (h.kind == Primary || h.kind == Import) && h.path in w.files
  }

  /** The unit's pieces make up its file without import directives, each with its cursor. */
  ghost predicate Faithful(w: World, st: State, v: nat)
    requires v < |st.heads|
  {
    var h := st.heads[v];
    if IsSourceUnit(w, h)
    then && Readable(w.files[h.path], 0)
         && LogText(UnitPieces(st.log, v)) == Strip(w.files[h.path], 0)
         && AreSlices(UnitPieces(st.log, v), w.files[h.path])
    else h.kind == Generated && UnitPieces(st.log, v) == [Piece(v, "\n", NOWHERE)]
  }

  lemma {:induction false} CutsAreFaithful(v: nat, source: string)
    requires Readable(source, 0)
    ensures LogText(Cuts(v, source, 0, 0)) == Strip(source, 0) && AreSlices(Cuts(v, source, 0, 0), source)
  {
    hide LogText, Cuts, Strip, Readable, AreSlices;
    CutsAreStripped(v, source, 0, 0);
    CutsAreSlices(v, source, 0, 0);
    assert source[0..0] + Strip(source, 0) == Strip(source, 0);
  }

  /** For every finite set of files, imports cyclic or not: if expansion succeeds, unit 0 is the
      input, every unit is faithful to its file, and no file has more than one Import unit. */
  lemma {:induction false} ExpansionIsFaithful(w: World, input: string)
    requires ExpandImports(w, input).Ok?
    ensures var st := ExpandImports(w, input).value;
            && |st.heads| > 0 && st.heads[0] == Header(Primary, input, "", ORIGIN)
            && UnitsExist(st.log, |st.heads|)
            && (forall v :: 0 <= v < |st.heads| ==> Faithful(w, st, v))
            && KeysOnce(w, st)
  {
    hide LogText, Cuts, Strip, Readable, AreSlices, Expand, UnitPieces;
    var first := State({}, [Header(Primary, input, "", ORIGIN)], []);
    ExpandGrows(w, w.parent(input), w.files[input], 0, 0, 0, first);
    ExpandOnce(w, w.parent(input), w.files[input], 0, 0, 0, first);
    var st := ExpandImports(w, input).value;
    assert st.heads[..1][0] == first.heads[0];
    NoUnit([], 0);
    forall v | 0 <= v < |st.heads|
      ensures Faithful(w, st, v)
    {
      if v == 0 {
        CutsAreFaithful(0, w.files[input]);
        assert UnitPieces(st.log, 0) == [] + Cuts(0, w.files[input], 0, 0) == Cuts(0, w.files[input], 0, 0);
      } else {
        assert Complete(w, st, v);
        if st.heads[v].kind == Import {
          CutsAreFaithful(v, w.files[st.heads[v].path]);
        }
      }
    }
  }

  /** Every character of the flattened text that comes from a file is mapped back, by the one
      segment that contains its position, to its line and column in that file. */
  lemma {:induction false} ExpansionKeepsPositions(w: World, input: string, k: nat, o: nat)
    requires ExpandImports(w, input).Ok?
    requires k < |ExpandImports(w, input).value.log| && o < |LogText(ExpandImports(w, input).value.log)|
    requires Contains(Segments(ExpandImports(w, input).value.log)[k], Point(ExpandImports(w, input).value.log, o))
    ensures var st := ExpandImports(w, input).value;
            && st.log[k].unit < |st.heads|
            && var h := st.heads[st.log[k].unit];
            IsSourceUnit(w, h) ==>
              exists start: nat ::
                && IsSlice(st.log[k], w.files[h.path], start)
                && Offset(st.log, k) <= o
                && MapLocation(Segments(st.log)[k], Point(st.log, o)) == CursorAt(w.files[h.path], start + (o - Offset(st.log, k)))
  {
    hide LogText, ExpandImports, Segments, Point, Offset, Contains, IsSlice, MapLocation, CursorAt, UnitPieces, Readable, Strip, KeysOnce;
    ExpansionIsFaithful(w, input);
    var st := ExpandImports(w, input).value;
    var v := st.log[k].unit;
    var h := st.heads[v];
    assert Faithful(w, st, v);
    PointLiesInItsSegment(st.log, k, o);
    if IsSourceUnit(w, h) {
      UnitMember(st.log, k);
      var start: nat :| IsSlice(st.log[k], w.files[h.path], start);
      PositionsAreExact(st.log, k, o, w.files[h.path], start);
    }
  }
}
