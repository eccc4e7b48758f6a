/** Where directives stand in a source, where none stands, and how broken ones are reported. */
module ImportDirectives {
  import opened Ir
  import opened Texts
  import opened Positions
  import opened SourceBuilder
  import opened ImportScan
  import opened ImportPayload
  import opened ImportGrammar
  import opened Imports

  // ----- characters -----

  /** The characters that end a word, begin a literal, separate entries, and make up words. */
  lemma {:induction false} CharacterClasses(c: char)
    ensures IsBoundary(c) <==> c as int in {95, 47} || 48 <= c as int <= 57 || 65 <= c as int <= 90 || 97 <= c as int <= 122
    ensures IsQuote(c) <==> c as int in {34, 39}
    ensures IsMark(c) <==> c as int in {44, 59}
    ensures IsSpace(c) <==> c as int in {9, 10, 11, 12, 13, 32}
    ensures IsWordStart(c) <==> IsBoundary(c) && c as int !in {47} && !(48 <= c as int <= 57)
    ensures IsWordChar(c) <==> IsBoundary(c) && c as int != 47
  {
  }

  // ----- blanks are gaps -----

  lemma {:induction false} SpaceIsGap(text: string, pos: nat)
    requires pos < |text| && IsSpace(text[pos])
    ensures GapOk(Space(text[pos])) && At(text, pos, GapText(Space(text[pos])))
  {
    hide IsSpace;
    assert text[pos..pos + 1] == [text[pos]];
  }

  lemma {:induction false} AtJoined(text: string, pos: nat, a: string, b: string)
    requires At(text, pos, a) && At(text, pos + |a|, b)
    ensures At(text, pos, a + b)
  {
    assert text[pos..pos + |a + b|] == text[pos..pos + |a|] + text[pos + |a|..pos + |a| + |b|];
  }

  lemma {:induction false} AtSlice(text: string, from: nat, to: nat)
    requires from <= to <= |text|
    ensures At(text, from, text[from..to])
  {
  }

  lemma {:induction false} LineIsGap(text: string, pos: nat) returns (g: Gap)
    requires At(text, pos, "//") && pos + 2 <= |text| && LineEnd(text, pos + 2) < |text|
    ensures GapOk(g) && At(text, pos, GapText(g)) && |GapText(g)| == LineEnd(text, pos + 2) + 1 - pos
  {
    hide At, LineEnd;
    var e := LineEnd(text, pos + 2);
    var note := text[pos + 2..e];
    g := Line(note);
    AtSlice(text, pos + 2, e);
    AtSlice(text, e, e + 1);
    assert text[e..e + 1] == ['\n'];
    AtJoined(text, pos, "//", note);
    AtJoined(text, pos, "//" + note, ['\n']);
  }

  lemma {:induction false} BlockEndIsFar(text: string, pos: nat)
    requires pos <= |text|
    ensures BlockEnd(text, pos) < |text| ==> BlockEnd(text, pos) >= pos + 2
    decreases |text| - pos
  {
    hide At;
    if pos < |text| && !At(text, pos, "*/") {
      BlockEndIsFar(text, pos + 1);
    }
  }

  lemma {:induction false} BlockIsGap(text: string, pos: nat) returns (g: Gap)
    requires At(text, pos, "/*") && pos + 2 <= |text| && BlockEnd(text, pos + 2) < |text|
    ensures GapOk(g) && At(text, pos, GapText(g)) && |GapText(g)| == BlockEnd(text, pos + 2) - pos
  {
    hide At, BlockEnd;
    BlockEndIsFar(text, pos + 2);
    var e := BlockEnd(text, pos + 2);
    var note := text[pos + 2..e - 2];
    g := Block(note);
    AtSlice(text, pos + 2, e - 2);
    forall j | 0 <= j < |note|
      ensures !At(note, j, "*/")
    {
      if At(note, j, "*/") {
        AtTwo(note, j, "*/");
        AtTwo(text, pos + 2 + j, "*/");
      }
    }
    AtJoined(text, pos, "/*", note);
    AtJoined(text, pos, "/*" + note, "*/");
  }

  lemma {:induction false} GapOn(text: string, pos: nat, g: Gap, gaps: seq<Gap>)
    requires GapOk(g) && GapsOk(gaps) && At(text, pos, GapText(g)) && At(text, pos + |GapText(g)|, GapsText(gaps))
    ensures GapsOk([g] + gaps) && At(text, pos, GapsText([g] + gaps))
    ensures |GapsText([g] + gaps)| == |GapText(g)| + |GapsText(gaps)|
  {
    hide At, GapOk, GapText;
    assert ([g] + gaps)[1..] == gaps;
    AtJoined(text, pos, GapText(g), GapsText(gaps));
  }

  lemma {:induction false} NoGapsHere(text: string, pos: nat)
    requires pos <= |text|
    ensures GapsOk([]) && At(text, pos, GapsText([])) && GapsText([]) == ""
  {
  }

  lemma {:induction false} LineBreakFollows(text: string, pos: nat)
    requires pos <= |text| && LineEnd(text, pos) < |text|
    ensures Blanks(text, LineEnd(text, pos)) == Blanks(text, LineEnd(text, pos) + 1)
  {
    hide Blanks, LineEnd;
    NewlineIsSpace();
    BlanksStep(text, LineEnd(text, pos));
  }

  lemma {:induction false} BlanksEnd(text: string, pos: nat)
    requires pos <= |text| && Blanks(text, pos) < |text|
    ensures At(text, pos, "//") && !IsSpace(text[pos]) ==> LineEnd(text, pos + 2) < |text|
    ensures At(text, pos, "/*") && !IsSpace(text[pos]) ==> BlockEnd(text, pos + 2) < |text|
  {
    hide At, LineEnd, BlockEnd, IsSpace;
    AtComment(text, pos);
    if pos < |text| {
      BlanksStep(text, |text|);
    }
  }

  /** What is skipped as blank in front of other text is a row of spaces and closed comments. */
  lemma {:induction false} BlanksAreGaps(text: string, pos: nat) returns (gaps: seq<Gap>)
    requires pos <= |text| && Blanks(text, pos) < |text|
    ensures GapsOk(gaps) && At(text, pos, GapsText(gaps)) && Blanks(text, pos) == pos + |GapsText(gaps)|
    decreases |text| - pos
  {
    hide At, GapsOk, GapsText, GapText, GapOk, LineEnd, BlockEnd, IsSpace, Blanks;
    BlanksStep(text, pos);
    if IsSpace(text[pos]) {
      SpaceIsGap(text, pos);
      OneChar(text[pos]);
      var more := BlanksAreGaps(text, pos + 1);
      GapOn(text, pos, Space(text[pos]), more);
      gaps := [Space(text[pos])] + more;
    } else {
      BlanksComment(text, pos);
      BlanksEnd(text, pos);
      AtComment(text, pos);
      if At(text, pos, "//") {
        var g := LineIsGap(text, pos);
        LineBreakFollows(text, pos + 2);
        var more := BlanksAreGaps(text, LineEnd(text, pos + 2) + 1);
        GapOn(text, pos, g, more);
        gaps := [g] + more;
      } else if At(text, pos, "/*") {
        var g := BlockIsGap(text, pos);
        var more := BlanksAreGaps(text, BlockEnd(text, pos + 2));
        GapOn(text, pos, g, more);
        gaps := [g] + more;
      } else {
        NoGapsHere(text, pos);
        gaps := [];
      }
    }
  }

  lemma {:induction false} OneChar(c: char)
    ensures |GapText(Space(c))| == 1
  {
  }

  // ----- heads of directives -----

  /** The word of a directive, with nothing but spaces and comments up to its bracket, and no
      letter, digit, underscore or slash before it. */
  predicate Heads(source: string, i: nat, word: string, gaps: seq<Gap>) {
    && GapsOk(gaps) && At(source, i, word + (GapsText(gaps) + ['<']))
    && (i == 0 || !IsBoundary(source[i - 1]))
  }

  lemma {:induction false} HeadParted(source: string, i: nat, word: string, gaps: seq<Gap>)
    requires Heads(source, i, word, gaps)
    ensures var open := i + |word| + |GapsText(gaps)|;
            && At(source, i, word) && At(source, i + |word|, GapsText(gaps)) && open < |source| && source[open] == '<'
  {
    hide At, GapsText, GapsOk;
    AtParts(source, i, word, GapsText(gaps) + ['<']);
    AtParts(source, i + |word|, GapsText(gaps), ['<']);
    AtOne(source, i + |word| + |GapsText(gaps)|, '<');
  }

  /** The payload of a directive begins behind its head, and nowhere else. */
  lemma {:induction false} HeadIsExact(source: string, i: nat, word: string, start: nat)
    requires i <= |source|
    ensures PayloadStart(source, i, word) == Some(start) <==>
            exists gaps: seq<Gap> :: Heads(source, i, word, gaps) && start == i + |word| + |GapsText(gaps)| + 1
  {
    hide At, GapsText, GapsOk, Blanks, IsBoundary, Heads;
    if PayloadStart(source, i, word) == Some(start) {
      var _ := StartHasHead(source, i, word);
    }
    if gaps: seq<Gap> :| Heads(source, i, word, gaps) && start == i + |word| + |GapsText(gaps)| + 1 {
      HeadStarts(source, i, word, gaps);
    }
  }

  lemma {:induction false} HeadStarts(source: string, i: nat, word: string, gaps: seq<Gap>)
    requires i <= |source| && Heads(source, i, word, gaps)
    ensures PayloadStart(source, i, word) == Some(i + |word| + |GapsText(gaps)| + 1)
  {
    hide At, GapsText, GapsOk, Blanks, IsBoundary;
    HeadParted(source, i, word, gaps);
    var scan := i + |word|;
    GapsTaken(source, scan, gaps);
    BracketIsNoBlank(source, scan + |GapsText(gaps)|);
    WordEnds(source, scan, gaps);
  }

  lemma {:induction false} StartHasHead(source: string, i: nat, word: string) returns (gaps: seq<Gap>)
    requires i <= |source| && PayloadStart(source, i, word).Some?
    ensures Heads(source, i, word, gaps) && PayloadStart(source, i, word) == Some(i + |word| + |GapsText(gaps)| + 1)
  {
    hide At, GapsText, GapsOk, Blanks, IsBoundary;
    WordFits(source, i, word);
    var scan := i + |word|;
    gaps := BlanksAreGaps(source, scan);
    var open := Blanks(source, scan);
    AtSlice(source, open, open + 1);
    assert source[open..open + 1] == ['<'];
    AtJoined(source, scan, GapsText(gaps), ['<']);
    AtJoined(source, i, word, GapsText(gaps) + ['<']);
  }

  lemma {:induction false} WordFits(source: string, i: nat, word: string)
    requires At(source, i, word)
    ensures i + |word| <= |source|
  {
  }

  ghost predicate HasHead(source: string, i: nat, word: string) { exists gaps: seq<Gap> :: Heads(source, i, word, gaps) }

  lemma {:induction false} StartIffHead(source: string, i: nat, word: string)
    requires i <= |source|
    ensures PayloadStart(source, i, word).Some? <==> HasHead(source, i, word)
  {
    hide PayloadStart, Heads;
    match PayloadStart(source, i, word)
    case Some(start) => HeadIsExact(source, i, word, start);
    case None =>
      if HasHead(source, i, word) {
        var gaps: seq<Gap> :| Heads(source, i, word, gaps);
        HeadIsExact(source, i, word, i + |word| + |GapsText(gaps)| + 1);
      }
  }

  /** Outside literals and comments, a step of the scan is an old directive if the head of one
      stands there, else an import if its head stands there, and else a single character. */
  lemma {:induction false} LookIsExact(source: string, i: nat)
    requires i < |source| && !IsQuote(source[i]) && !At(source, i, "//") && !At(source, i, "/*")
    ensures Look(source, i).Legacy? <==> HasHead(source, i, "include")
    ensures Look(source, i).Directive? || Look(source, i).Unterminated? <==>
              !HasHead(source, i, "include") && HasHead(source, i, "import")
    ensures Look(source, i).Skip? ==> Look(source, i) == Skip(i + 1)
  {
    hide PayloadStart, PayloadEnd, HasHead, At;
    StartIffHead(source, i, "include");
    StartIffHead(source, i, "import");
  }

  // ----- payloads without an end -----

  lemma {:induction false} NothingFound(text: string, pos: nat, c: char)
    requires pos <= |text| && c !in text[pos..]
    ensures FindFrom(text, pos, c).None?
    decreases |text| - pos
  {
    if pos < |text| {
      assert text[pos] == text[pos..][0] && forall d :: d in text[pos + 1..] ==> d in text[pos..];
      NothingFound(text, pos + 1, c);
    }
  }

  lemma {:induction false} NoBracketNoEnd(text: string, pos: nat, bare: bool)
    requires pos <= |text|
    ensures '>' !in text[pos..] ==> PayloadEnd(text, pos, bare).None?
  {
    match PayloadEnd(text, pos, bare)
    case None =>
    case Some(end) => assert text[pos..][end - pos] == '>';
  }

  /** A literal that stays open does not hide the bracket: the payload ends at the next one. */
  lemma {:induction false} OpenLiteralIsIgnored(text: string, pos: nat, end: nat, bare: bool)
    requires pos < end < |text| && IsQuote(text[pos]) && text[pos] !in text[pos + 1..] && '\\' !in text[pos + 1..]
    requires text[end] == '>' && '>' !in text[pos + 1..end]
    ensures PayloadEnd(text, pos, bare) == Some(end)
  {
    hide Unquote, FindFrom, LineEnd, BlockEnd;
    StaysOpen(text, pos + 1, text[pos]);
    FirstFound(text, pos + 1, end, '>');
  }

  lemma {:induction false} StaysOpen(text: string, pos: nat, quote: char)
    requires pos <= |text| && quote !in text[pos..] && '\\' !in text[pos..]
    ensures Unquote(text, pos, quote) == |text|
    decreases |text| - pos
  {
    if pos < |text| {
      assert text[pos] == text[pos..][0] && forall d :: d in text[pos + 1..] ==> d in text[pos..];
      StaysOpen(text, pos + 1, quote);
    }
  }

  lemma {:induction false} FirstFound(text: string, pos: nat, end: nat, c: char)
    requires pos <= end < |text| && text[end] == c && c !in text[pos..end]
    ensures FindFrom(text, pos, c) == Some(end)
    decreases end - pos
  {
    if pos < end {
      assert text[pos] == text[pos..end][0] && forall d :: d in text[pos + 1..end] ==> d in text[pos..end];
      FirstFound(text, pos + 1, end, c);
    }
  }

  /** A character of a path without quotes, as the scanner for the end of a payload sees it. */
  predicate IsBareChar(c: char) { c != '>' && !IsQuote(c) && !IsSpace(c) && !IsMark(c) && c != '=' }

  /** Inside a path without quotes two slashes, or a slash and a star, begin no comment. */
  lemma {:induction false} BareTextIsScanned(text: string, pos: nat, end: nat)
    requires pos <= end <= |text| && forall j :: pos <= j < end ==> IsBareChar(text[j])
    ensures PayloadEnd(text, pos, true) == PayloadEnd(text, end, true)
    decreases end - pos
  {
    hide At, IsSpace, Unquote, LineEnd, BlockEnd, FindFrom;
    if pos < end {
      BareTextIsScanned(text, pos + 1, end);
    }
  }

  /** Such a path begins with the first slash of a word, unless a comment begins there. */
  lemma {:induction false} SlashBeginsBareText(text: string, pos: nat, end: nat)
    requires pos < end <= |text| && text[pos] == '/' && !At(text, pos, "//") && !At(text, pos, "/*")
    requires forall j :: pos <= j < end ==> IsBareChar(text[j])
    ensures PayloadEnd(text, pos, false) == PayloadEnd(text, end, true)
    ensures end < |text| && text[end] == '>' ==> PayloadEnd(text, pos, false) == Some(end)
  {
    hide At, IsSpace, Unquote, LineEnd, BlockEnd, FindFrom;
    BareTextIsScanned(text, pos + 1, end);
  }

  /** A space, a mark or an equals sign ends it: behind them comments count again. */
  lemma {:induction false} MarksEndBareText(text: string, pos: nat, bare: bool)
    requires pos < |text| && (IsSpace(text[pos]) || IsMark(text[pos]) || text[pos] == '=')
    ensures PayloadEnd(text, pos, bare) == PayloadEnd(text, pos + 1, false)
  {
    hide At, IsSpace, Unquote, LineEnd, BlockEnd, FindFrom;
    CharacterClasses(text[pos]);
  }

  // ----- broken directives -----

  /** An old directive, or one without an end, stops the expansion where it stands. */
  lemma {:induction false} BrokenDirectiveStops(w: World, base: string, source: string, i: nat, copied: nat, unit: nat, st: State)
    requires copied <= i < |source| && !IsQuote(source[i]) && !At(source, i, "//") && !At(source, i, "/*")
    ensures HasHead(source, i, "include") ==>
              var r := Expand(w, base, source, i, copied, unit, st);
              r == Fail(LegacyInclude) || (r == Fail(UnterminatedInclude))
    ensures HasHead(source, i, "include") && '>' !in source[i..] ==>
              Expand(w, base, source, i, copied, unit, st) == Fail(UnterminatedInclude)
    ensures !HasHead(source, i, "include") && HasHead(source, i, "import") && '>' !in source[i..] ==>
              Expand(w, base, source, i, copied, unit, st) == Fail(UnterminatedImport)
  {
    hide PayloadStart, PayloadEnd, HasHead, At, Resolve, Load;
    StartIffHead(source, i, "include");
    StartIffHead(source, i, "import");
    if '>' !in source[i..] {
      EndsAreMissing(source, i, "include");
      EndsAreMissing(source, i, "import");
    }
  }

  lemma {:induction false} EndsAreMissing(source: string, i: nat, word: string)
    requires i <= |source| && '>' !in source[i..]
    ensures PayloadStart(source, i, word).Some? ==> PayloadEnd(source, PayloadStart(source, i, word).value, false).None?
  {
    hide PayloadEnd, At, Blanks, IsBoundary;
    match PayloadStart(source, i, word)
    case None =>
    case Some(start) =>
      assert forall d :: d in source[start..] ==> d in source[i..];
      NoBracketNoEnd(source, start, false);
  }

  /** An old directive with a payload as it may be written is told as such. */
  lemma {:induction false} LegacyIsTold(w: World, base: string, source: string, i: nat, copied: nat, unit: nat, st: State,
                                        gaps: seq<Gap>, lead: seq<Sep>, groups: seq<Group>)
    requires copied <= i < |source| && Heads(source, i, "include", gaps)
    requires SepsOk(lead) && GroupsOk(groups) && AllScan(groups)
    requires At(source, i + 8 + |GapsText(gaps)|, PayloadText(lead, groups) + ['>'])
    ensures Expand(w, base, source, i, copied, unit, st) == Fail(LegacyInclude)
  {
    hide PayloadStart, PayloadEnd, At, Resolve, Load, GapsText, GapsOk, PayloadText, SepsOk, GroupsOk, AllScan;
    HeadStarts(source, i, "include", gaps);
    PayloadScanned(source, i + 8 + |GapsText(gaps)|, lead, groups);
    HeadParted(source, i, "include", gaps);
    AtIndex(source, i, "include", 0);
    AtComment(source, i);
  }

  // ----- the units there are -----

  /** A file that was entered, or a line break behind one. */
  predicate IsKnown(w: World, h: Header) {
    || (h.kind == Import && h.path in w.files && h.moduleKey == "" && h.original == Cursor(1, 1))
    || h == Header(Generated, "", "<import-separator>", Cursor(0, 0))
  }

  /** The first unit is `first`, and the others are known. */
  predicate AllKnown(w: World, heads: seq<Header>, first: Header) {
    heads != [] && heads[0] == first && forall u :: 1 <= u < |heads| ==> IsKnown(w, heads[u])
  }

  lemma {:induction false} ExpandKnows(w: World, base: string, source: string, i: nat, copied: nat, unit: nat, st: State, h: Header)
    requires copied <= i <= |source| && AllKnown(w, st.heads, h)
    ensures var r := Expand(w, base, source, i, copied, unit, st); r.Ok? ==> AllKnown(w, r.value.heads, h)
    decreases |Open(w, st.expanded)|, 1, |source| - i
  {
    hide Look, Resolve, Slice, Load, IsKnown;
    if i < |source| {
      var item := Look(source, i);
      match item
      case Skip(next) => ExpandKnows(w, base, source, next, copied, unit, st, h);
      case Directive(start, end) =>
        var files := Resolve(w, base, source[start..end]);
        if files.Ok? {
          DirectiveKnows(w, base, source, i, unit, Append(st, Slice(unit, source, copied, i)), end, files.value, h);
        }
      case _ =>
    }
  }

  lemma {:induction false} DirectiveKnows(w: World, base: string, source: string, i: nat, unit: nat, cut: State, end: nat, paths: seq<string>, h: Header)
    requires i < end < |source| && AllKnown(w, cut.heads, h)
    ensures var loaded := Load(w, paths, cut);
            loaded.Ok? ==>
              var r := Expand(w, base, source, end + 1, end + 1, unit, loaded.value);
              r.Ok? ==> AllKnown(w, r.value.heads, h)
    decreases |Open(w, cut.expanded)|, 1, |source| - i - 1
  {
    hide IsKnown, Expand, Load, Open;
    LoadKnows(w, paths, cut, h);
    var loaded := Load(w, paths, cut);
    if loaded.Ok? {
      OpenShrinks(w, cut.expanded, loaded.value.expanded);
      ExpandKnows(w, base, source, end + 1, end + 1, unit, loaded.value, h);
    }
  }

  lemma {:induction false} LoadKnows(w: World, paths: seq<string>, st: State, h: Header)
    requires AllKnown(w, st.heads, h)
    ensures var r := Load(w, paths, st); r.Ok? ==> AllKnown(w, r.value.heads, h)
    decreases |Open(w, st.expanded)|, 0, |paths|
  {
    hide Separate, AllKnown;
    if paths != [] {
      if w.key(paths[0]) in st.expanded {
        LoadKnows(w, paths[1..], st, h);
      } else if paths[0] in w.files {
        var entered := Enter(w, paths[0], st);
        assert w.key(paths[0]) in Keys(w);
        OpenLess(w, st.expanded, w.key(paths[0]));
        EnterKnows(w, paths[0], st, h);
        ExpandKnows(w, w.parent(paths[0]), w.files[paths[0]], 0, 0, |st.heads|, entered, h);
        var r := Expand(w, w.parent(paths[0]), w.files[paths[0]], 0, 0, |st.heads|, entered);
        if r.Ok? {
          SeparateKnows(w, st, r.value, h);
          OpenShrinks(w, entered.expanded, r.value.expanded);
          LoadKnows(w, paths[1..], Separate(st, r.value), h);
        }
      }
    }
  }

  lemma {:induction false} OpenLess(w: World, expanded: set<string>, key: string)
    requires key in Keys(w) && key !in expanded
    ensures |Open(w, expanded + {key})| < |Open(w, expanded)|
  {
    assert Open(w, expanded + {key}) == Open(w, expanded) - {key} && key in Open(w, expanded);
  }

  lemma {:induction false} EnterKnows(w: World, path: string, st: State, h: Header)
    requires AllKnown(w, st.heads, h) && path in w.files
    ensures AllKnown(w, Enter(w, path, st).heads, h)
  {
  }

  lemma {:induction false} SeparateKnows(w: World, before: State, after: State, h: Header)
    requires AllKnown(w, after.heads, h)
    ensures AllKnown(w, Separate(before, after).heads, h) && Separate(before, after).expanded == after.expanded
  {
    hide LogText;
  }

  /** The first unit is the input, and every other is a file or the line break behind one. */
  lemma {:induction false} UnitsAreKnown(w: World, input: string)
    requires ExpandImports(w, input).Ok?
    ensures input in w.files
    ensures var heads := ExpandImports(w, input).value.heads;
            AllKnown(w, heads, Header(Primary, input, "", Cursor(1, 1)))
  {
    hide Expand, IsKnown;
    var st := State({}, [Header(Primary, input, "", ORIGIN)], []);
    ExpandKnows(w, w.parent(input), w.files[input], 0, 0, 0, st, st.heads[0]);
  }
}
