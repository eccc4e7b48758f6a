/** Import directives as they are written, and that they are found and read as written. */
module ImportGrammar {
  import opened Ir
  import opened Texts
  import opened ImportScan
  import opened ImportPayload

  // ----- what may be written -----

  /** A space, a comment to the end of a line, or a comment in brackets. */
  datatype Gap = Space(c: char) | Line(note: string) | Block(note: string)

  predicate GapOk(g: Gap) {
    match g
    case Space(c) => IsSpace(c)
    case Line(note) => '\n' !in note
    case Block(note) => forall j :: 0 <= j < |note| ==> !At(note, j, "*/")
  }

  function GapText(g: Gap): string {
    match g case Space(c) => [c] case Line(note) => "//" + note + ['\n'] case Block(note) => "/*" + note + "*/"
  }

  predicate GapsOk(gaps: seq<Gap>) { forall g :: g in gaps ==> GapOk(g) }

  function GapsText(gaps: seq<Gap>): string {
    if gaps == [] then "" else GapText(gaps[0]) + GapsText(gaps[1..])
  }

  datatype Sep = Blank(gap: Gap) | Mark(c: char)

  predicate SepOk(s: Sep) { match s case Blank(g) => GapOk(g) case Mark(c) => IsMark(c) }

  function SepText(s: Sep): string { match s case Blank(g) => GapText(g) case Mark(c) => [c] }

  predicate SepsOk(seps: seq<Sep>) { forall s :: s in seps ==> SepOk(s) }

  function SepsText(seps: seq<Sep>): string {
    if seps == [] then "" else SepText(seps[0]) + SepsText(seps[1..])
  }

  /** A separator that ends the entry before it; a comment alone does not. */
  predicate Parts(s: Sep) { s.Mark? || s.gap.Space? }

  datatype Phrase =
    | Quoted(quote: char, path: string)
    | Bare(path: string)
    | Version(first: seq<Gap>, second: seq<Gap>, quote: char, text: string)

  predicate ItemOk(item: Phrase) {
    match item
    case Quoted(quote, _) => IsQuote(quote)
    case Bare(path) => SlashFlaw(path).None?
    case Version(first, second, quote, _) =>
      GapsOk(first) && GapsOk(second) && (first == [] || first[0].Space?) && IsQuote(quote)
  }

  /** The scanner comes to the end of this text between these quotes: inside double quotes a
      backslash takes the next character along, and no quote but such a one is inside. */
  predicate Scans(quote: char, s: string) {
    if s == "" then true
    else if quote == '"' && s[0] == '\\' then |s| >= 2 && Scans(quote, s[2..])
    else s[0] != quote && Scans(quote, s[1..])
  }

  predicate ItemScans(item: Phrase) {
    match item case Quoted(quote, path) => Scans(quote, path) case Bare(_) => true case Version(_, _, quote, text) => Scans(quote, text)
  }

  /** The reader stops at the first quote, so it comes to the end of a text without one. */
  predicate ItemReads(item: Phrase) {
    match item case Quoted(quote, path) => quote !in path case Bare(_) => true case Version(_, _, quote, text) => quote !in text
  }

  function QuotedText(quote: char, s: string): string { [quote] + (s + [quote]) }

  function ItemText(item: Phrase): string {
    match item
    case Quoted(quote, path) => QuotedText(quote, path)
    case Bare(path) => path
    case Version(first, second, quote, text) =>
      "version" + (GapsText(first) + (['='] + (GapsText(second) + QuotedText(quote, text))))
  }

  datatype Group = Group(item: Phrase, seps: seq<Sep>)

  predicate GroupsOk(groups: seq<Group>) {
    groups == [] ||
    (&& ItemOk(groups[0].item) && SepsOk(groups[0].seps)
     && (if groups[0].seps == [] then |groups| == 1 else Parts(groups[0].seps[0]))
     && GroupsOk(groups[1..]))
  }

  predicate AllScan(groups: seq<Group>) { forall g :: g in groups ==> ItemScans(g.item) }

  predicate AllRead(groups: seq<Group>) { forall g :: g in groups ==> ItemReads(g.item) }

  function GroupText(g: Group): string { ItemText(g.item) + SepsText(g.seps) }

  function GroupsText(groups: seq<Group>): string {
    if groups == [] then "" else GroupText(groups[0]) + GroupsText(groups[1..])
  }

  /** What an item adds to a payload. */
  function With(payload: Payload, item: Phrase): Payload {
    match item
    case Quoted(_, path) => payload.(entries := payload.entries + [Entry(Trim(path), false)])
    case Bare(path) => payload.(entries := payload.entries + [Entry(path, true)])
    case Version(_, _, _, text) => payload.(version := Some(Trim(text)))
  }

  function Gather(groups: seq<Group>, payload: Payload): Payload {
    if groups == [] then payload else Gather(groups[1..], With(payload, groups[0].item))
  }

  /** No second version. */
  predicate OneVersion(groups: seq<Group>, payload: Payload) {
    groups == [] ||
    ((groups[0].item.Version? ==> payload.version.None?) && OneVersion(groups[1..], With(payload, groups[0].item)))
  }

  // ----- texts within texts -----

  lemma {:induction false} AtParts(text: string, pos: nat, a: string, b: string)
    requires At(text, pos, a + b)
    ensures At(text, pos, a) && At(text, pos + |a|, b)
  {
    var both := text[pos..pos + |a + b|];
    assert text[pos..pos + |a|] == both[..|a|] && text[pos + |a|..pos + |a| + |b|] == both[|a|..];
    assert (a + b)[..|a|] == a && (a + b)[|a|..] == b;
  }

  lemma {:induction false} AtIndex(text: string, pos: nat, word: string, k: nat)
    requires At(text, pos, word) && k < |word|
    ensures pos + k < |text| && text[pos + k] == word[k]
  {
    assert text[pos..pos + |word|][k] == text[pos + k];
  }

  lemma {:induction false} AtIs(text: string, pos: nat, word: string)
    requires At(text, pos, word)
    ensures pos + |word| <= |text| && text[pos..pos + |word|] == word
  {
  }

  lemma {:induction false} AtOne(text: string, pos: nat, c: char)
    requires At(text, pos, [c])
    ensures pos < |text| && text[pos] == c
  {
    AtIndex(text, pos, [c], 0);
  }

  // ----- gaps -----

  lemma {:induction false} LineEndsAt(text: string, pos: nat, note: string)
    requires '\n' !in note && At(text, pos, note + ['\n'])
    ensures pos <= |text| && LineEnd(text, pos) == pos + |note|
  {
    AtParts(text, pos, note, ['\n']);
    AtOne(text, pos + |note|, '\n');
    forall j | pos <= j < pos + |note|
      ensures text[j] != '\n'
    {
      AtIndex(text, pos, note, j - pos);
    }
  }

  lemma {:induction false} BlockEndsAt(text: string, pos: nat, end: nat)
    requires pos <= end && At(text, end, "*/") && forall j :: pos <= j < end ==> !At(text, j, "*/")
    ensures pos <= |text| && BlockEnd(text, pos) == end + 2
    decreases end - pos
  {
    if pos < end {
      BlockEndsAt(text, pos + 1, end);
    }
  }

  lemma {:induction false} NoteHasNoEnd(text: string, pos: nat, note: string, j: nat)
    requires (forall k :: 0 <= k < |note| ==> !At(note, k, "*/")) && At(text, pos, note + "*/") && pos <= j < pos + |note|
    ensures !At(text, j, "*/")
  {
    AtTwo(text, j, "*/");
    var k := j - pos;
    assert (note + "*/")[k] == note[k];
    AtIndex(text, pos, note + "*/", k);
    AtIndex(text, pos, note + "*/", k + 1);
    AtTwo(note, k, "*/");
    if k + 1 == |note| {
      assert (note + "*/")[k + 1] == '*';
    } else {
      assert (note + "*/")[k + 1] == note[k + 1];
    }
  }

  /** Where a comment that begins at `pos` takes the scanners. */
  lemma {:induction false} CommentTaken(text: string, pos: nat)
    requires pos + 2 <= |text| && text[pos] == '/'
    ensures text[pos + 1] == '/' ==>
              var e := LineEnd(text, pos + 2);
              Blanks(text, pos) == Blanks(text, e) && PayloadEnd(text, pos, false) == PayloadEnd(text, e, false)
    ensures text[pos + 1] == '*' ==>
              var e := BlockEnd(text, pos + 2);
              Blanks(text, pos) == Blanks(text, e) && PayloadEnd(text, pos, false) == PayloadEnd(text, e, false)
  {
    hide At, LineEnd, BlockEnd, Unquote, FindFrom;
    AtComment(text, pos);
    BlanksComment(text, pos);
  }

  lemma {:induction false} SpaceTaken(text: string, pos: nat)
    requires pos < |text| && IsSpace(text[pos])
    ensures Blanks(text, pos) == Blanks(text, pos + 1)
    ensures forall bare :: PayloadEnd(text, pos, bare) == PayloadEnd(text, pos + 1, false)
  {
    hide At, LineEnd, BlockEnd, Unquote, FindFrom;
    BlanksStep(text, pos);
  }

  lemma {:induction false} LineTaken(text: string, pos: nat, note: string)
    requires '\n' !in note && At(text, pos, "//" + (note + ['\n']))
    ensures var e := pos + |note| + 3;
            e <= |text| && Blanks(text, pos) == Blanks(text, e) && PayloadEnd(text, pos, false) == PayloadEnd(text, e, false)
  {
    hide Blanks, PayloadEnd, At, IsSpace, LineEnd, BlockEnd;
    AtParts(text, pos, "//", note + ['\n']);
    AtIndex(text, pos, "//", 0);
    AtIndex(text, pos, "//", 1);
    LineEndsAt(text, pos + 2, note);
    CommentTaken(text, pos);
    AtParts(text, pos + 2, note, ['\n']);
    AtOne(text, pos + 2 + |note|, '\n');
    NewlineIsSpace();
    SpaceTaken(text, pos + 2 + |note|);
  }

  lemma {:induction false} BlockTaken(text: string, pos: nat, note: string)
    requires (forall j :: 0 <= j < |note| ==> !At(note, j, "*/")) && At(text, pos, "/*" + (note + "*/"))
    ensures var e := pos + |note| + 4;
            e <= |text| && Blanks(text, pos) == Blanks(text, e) && PayloadEnd(text, pos, false) == PayloadEnd(text, e, false)
  {
    hide Blanks, PayloadEnd, At, IsSpace, LineEnd, BlockEnd;
    AtParts(text, pos, "/*", note + "*/");
    AtIndex(text, pos, "/*", 0);
    AtIndex(text, pos, "/*", 1);
    AtParts(text, pos + 2, note, "*/");
    forall j | pos + 2 <= j < pos + 2 + |note|
      ensures !At(text, j, "*/")
    {
      NoteHasNoEnd(text, pos + 2, note, j);
    }
    BlockEndsAt(text, pos + 2, pos + 2 + |note|);
    CommentTaken(text, pos);
  }

  lemma {:induction false} GapTaken(text: string, pos: nat, g: Gap)
    requires GapOk(g) && At(text, pos, GapText(g))
    ensures pos + |GapText(g)| <= |text|
    ensures Blanks(text, pos) == Blanks(text, pos + |GapText(g)|)
    ensures PayloadEnd(text, pos, false) == PayloadEnd(text, pos + |GapText(g)|, false)
  {
    hide Blanks, PayloadEnd, At, IsSpace;
    match g
    case Space(c) =>
      AtOne(text, pos, c);
      SpaceTaken(text, pos);
    case Line(note) =>
      assert GapText(g) == "//" + (note + ['\n']);
      LineTaken(text, pos, note);
    case Block(note) =>
      assert GapText(g) == "/*" + (note + "*/");
      BlockTaken(text, pos, note);
  }

  lemma {:induction false} NewlineIsSpace()
    ensures IsSpace('\n')
  {
  }

  lemma {:induction false} GapsTaken(text: string, pos: nat, gaps: seq<Gap>)
    requires GapsOk(gaps) && At(text, pos, GapsText(gaps))
    ensures pos + |GapsText(gaps)| <= |text|
    ensures Blanks(text, pos) == Blanks(text, pos + |GapsText(gaps)|)
    ensures PayloadEnd(text, pos, false) == PayloadEnd(text, pos + |GapsText(gaps)|, false)
    decreases |gaps|
  {
    hide Blanks, PayloadEnd, GapOk, GapText;
    if gaps != [] {
      AtParts(text, pos, GapText(gaps[0]), GapsText(gaps[1..]));
      GapTaken(text, pos, gaps[0]);
      GapsTaken(text, pos + |GapText(gaps[0])|, gaps[1..]);
    }
  }

  // ----- scanning to the end of a payload -----

  /** The scanner comes out right behind the closing quote exactly if it scans the text. */
  lemma {:induction false} ScansExactly(text: string, pos: nat, quote: char, s: string)
    requires IsQuote(quote) && At(text, pos, s + [quote]) && pos + |s| + 1 < |text|
    ensures Unquote(text, pos, quote) == pos + |s| + 1 <==> Scans(quote, s)
    decreases |s|
  {
    if s == "" {
      assert s + [quote] == [quote];
      AtOne(text, pos, quote);
    } else {
      assert s + [quote] == [s[0]] + (s[1..] + [quote]);
      AtParts(text, pos, [s[0]], s[1..] + [quote]);
      AtOne(text, pos, s[0]);
      if quote == '"' && s[0] == '\\' {
        if |s| >= 2 {
          assert s[1..] + [quote] == [s[1]] + (s[2..] + [quote]);
          AtParts(text, pos + 1, [s[1]], s[2..] + [quote]);
          ScansExactly(text, pos + 2, quote, s[2..]);
        } else {
          UnquoteMoves(text, pos + 2, quote);
        }
      } else if s[0] != quote {
        ScansExactly(text, pos + 1, quote, s[1..]);
      }
    }
  }

  /** At the end of a source too. */
  lemma {:induction false} ScansSkips(text: string, pos: nat, quote: char, s: string)
    requires IsQuote(quote) && At(text, pos, s + [quote]) && Scans(quote, s)
    ensures pos <= |text| && Unquote(text, pos, quote) == pos + |s| + 1
    decreases |s|
  {
    if s == "" {
      assert s + [quote] == [quote];
      AtOne(text, pos, quote);
    } else {
      assert s + [quote] == [s[0]] + (s[1..] + [quote]);
      AtParts(text, pos, [s[0]], s[1..] + [quote]);
      AtOne(text, pos, s[0]);
      if quote == '"' && s[0] == '\\' {
        assert s[1..] + [quote] == [s[1]] + (s[2..] + [quote]);
        AtParts(text, pos + 1, [s[1]], s[2..] + [quote]);
        ScansSkips(text, pos + 2, quote, s[2..]);
      } else {
        ScansSkips(text, pos + 1, quote, s[1..]);
      }
    }
  }

  lemma {:induction false} UnquoteMoves(text: string, pos: nat, quote: char)
    requires pos < |text|
    ensures Unquote(text, pos, quote) > pos
  {
  }

  /** The reader comes to the closing quote exactly if the text has no quote before it. */
  lemma {:induction false} ReadsExactly(text: string, pos: nat, quote: char, s: string)
    requires At(text, pos, s + [quote])
    ensures FindFrom(text, pos, quote) == Some(pos + |s|) <==> quote !in s
    decreases |s|
  {
    if s == "" {
      assert s + [quote] == [quote];
      AtOne(text, pos, quote);
    } else {
      assert s + [quote] == [s[0]] + (s[1..] + [quote]);
      AtParts(text, pos, [s[0]], s[1..] + [quote]);
      AtOne(text, pos, s[0]);
      assert s == [s[0]] + s[1..];
      if s[0] != quote {
        ReadsExactly(text, pos + 1, quote, s[1..]);
      }
    }
  }

  /** A backslash at the end of a text that takes the quote behind it along. */
  predicate Dangles(s: string) {
    s != "" && if s[0] == '\\' then |s| == 1 || Dangles(s[2..]) else Dangles(s[1..])
  }

  /** Scanner and reader both come to the end of a text between quotes exactly if the quote is not
      in it and, inside double quotes, its last backslash does not dangle. */
  lemma {:induction false} AgreeExactly(quote: char, s: string)
    requires IsQuote(quote)
    ensures Scans(quote, s) && quote !in s <==> quote !in s && (quote == '"' ==> !Dangles(s))
    decreases |s|
  {
    if s != "" {
      assert s == [s[0]] + s[1..];
      if quote == '"' && s[0] == '\\' {
        if |s| >= 2 {
          assert s[1..] == [s[1]] + s[2..];
          AgreeExactly(quote, s[2..]);
        }
      } else {
        AgreeExactly(quote, s[1..]);
      }
    }
  }

  lemma {:induction false} QuotedScanned(text: string, pos: nat, quote: char, s: string)
    requires IsQuote(quote) && Scans(quote, s) && At(text, pos, QuotedText(quote, s)) && pos + |s| + 2 < |text|
    ensures PayloadEnd(text, pos, false) == PayloadEnd(text, pos + |s| + 2, false)
  {
    hide At, IsSpace, LineEnd, BlockEnd, Unquote, FindFrom, Scans;
    AtParts(text, pos, [quote], s + [quote]);
    AtOne(text, pos, quote);
    ScansExactly(text, pos + 1, quote, s);
  }

  predicate IsPathChar(c: char) { IsWordChar(c) || c == '/' }

  /** Letters, and slashes inside a bare path, are stepped over. */
  lemma {:induction false} PathScanned(text: string, pos: nat, end: nat, bare: bool)
    requires pos <= end <= |text| && forall j :: pos <= j < end ==> IsPathChar(text[j]) && (!bare ==> text[j] != '/')
    ensures PayloadEnd(text, pos, bare) == PayloadEnd(text, end, bare)
    decreases end - pos
  {
    hide LineEnd, BlockEnd, Unquote, FindFrom, At;
    if pos < end {
      AtComment(text, pos);
      PathScanned(text, pos + 1, end, bare);
    }
  }

  lemma {:induction false} WordsHaveChars(text: string, start: nat, j: nat)
    requires start <= j < |text| && WordsFlaw(text, start).None?
    ensures IsPathChar(text[j])
    decreases |text| - start
  {
    var end := SlashFrom(text, start);
    var word := text[start..end];
    if start < j < end {
      assert word[j - start] == word[1..][j - start - 1];
    } else if end < j {
      WordsHaveChars(text, end + 1, j);
    }
  }

  lemma {:induction false} SlashPathShape(path: string)
    requires SlashFlaw(path).None?
    ensures |path| >= 2 && path[0] == '/' && IsWordStart(path[1])
    ensures forall j :: 0 <= j < |path| ==> IsPathChar(path[j])
    ensures IsTrimmed(path)
  {
    hide IsReserved;
    var end := SlashFrom(path, 1);
    assert path[1..end][0] == path[1];
    forall j | 0 <= j < |path|
      ensures IsPathChar(path[j]) && !IsSpace(path[j])
    {
      if j > 0 {
        WordsHaveChars(path, 1, j);
      }
    }
  }

  lemma {:induction false} BareScanned(text: string, pos: nat, path: string)
    requires SlashFlaw(path).None? && At(text, pos, path) && pos + |path| < |text|
    requires var c := text[pos + |path|]; IsSpace(c) || IsMark(c) || c == '>'
    ensures PayloadEnd(text, pos, false) == PayloadEnd(text, pos + |path|, false)
  {
    hide SlashFlaw, LineEnd, BlockEnd, Unquote, FindFrom, At;
    SlashPathShape(path);
    forall j | pos <= j < pos + |path|
      ensures text[j] == path[j - pos]
    {
      AtIndex(text, pos, path, j - pos);
    }
    AtComment(text, pos);
    assert PayloadEnd(text, pos, false) == PayloadEnd(text, pos + 1, true);
    PathScanned(text, pos + 1, pos + |path|, true);
    EndOfBare(text, pos + |path|);
  }

  lemma {:induction false} EndOfBare(text: string, pos: nat)
    requires pos < |text| && (IsSpace(text[pos]) || IsMark(text[pos]) || text[pos] == '>')
    ensures PayloadEnd(text, pos, true) == PayloadEnd(text, pos, false)
  {
    hide LineEnd, BlockEnd, Unquote, FindFrom, At;
  }

  lemma {:induction false} EqualsTaken(text: string, pos: nat)
    requires pos < |text| && text[pos] == '='
    ensures PayloadEnd(text, pos, false) == PayloadEnd(text, pos + 1, false) && Blanks(text, pos) == pos
  {
    hide LineEnd, BlockEnd, Unquote, FindFrom, At;
    AtComment(text, pos);
  }

  /** The parts of a version attribute, one behind the other. */
  lemma {:induction false} VersionParted(text: string, pos: nat, item: Phrase)
    requires item.Version? && At(text, pos, ItemText(item))
    ensures var a := pos + 7; var b := a + |GapsText(item.first)|; var c := b + 1 + |GapsText(item.second)|;
            && At(text, pos, "version") && At(text, a, GapsText(item.first)) && b < |text| && text[b] == '='
            && At(text, b + 1, GapsText(item.second)) && At(text, c, QuotedText(item.quote, item.text))
            && c + |item.text| + 2 == pos + |ItemText(item)|
  {
    hide At, GapsText;
    var quoted := QuotedText(item.quote, item.text);
    AtParts(text, pos, "version", GapsText(item.first) + (['='] + (GapsText(item.second) + quoted)));
    AtParts(text, pos + 7, GapsText(item.first), ['='] + (GapsText(item.second) + quoted));
    var b := pos + 7 + |GapsText(item.first)|;
    AtParts(text, b, ['='], GapsText(item.second) + quoted);
    AtOne(text, b, '=');
    AtParts(text, b + 1, GapsText(item.second), quoted);
  }

  lemma {:induction false} VersionScanned(text: string, pos: nat, item: Phrase)
    requires item.Version? && ItemOk(item) && ItemScans(item) && At(text, pos, ItemText(item)) && pos + |ItemText(item)| < |text|
    ensures PayloadEnd(text, pos, false) == PayloadEnd(text, pos + |ItemText(item)|, false)
  {
    hide PayloadEnd, At, ItemText, GapsText, Scans;
    VersionParted(text, pos, item);
    KeywordScanned(text, pos);
    GapsTaken(text, pos + 7, item.first);
    var b := pos + 7 + |GapsText(item.first)|;
    EqualsTaken(text, b);
    GapsTaken(text, b + 1, item.second);
    QuotedScanned(text, b + 1 + |GapsText(item.second)|, item.quote, item.text);
  }

  lemma {:induction false} KeywordScanned(text: string, pos: nat)
    requires At(text, pos, "version")
    ensures PayloadEnd(text, pos, false) == PayloadEnd(text, pos + 7, false)
  {
    hide PayloadEnd;
    var word := "version";
    forall j | pos <= j < pos + 7
      ensures IsPathChar(text[j]) && text[j] != '/'
    {
      AtIndex(text, pos, word, j - pos);
      assert word[j - pos] in word;
    }
    PathScanned(text, pos, pos + 7, false);
  }

  lemma {:induction false} ItemScanned(text: string, pos: nat, item: Phrase)
    requires ItemOk(item) && ItemScans(item) && At(text, pos, ItemText(item)) && pos + |ItemText(item)| < |text|
    requires var c := text[pos + |ItemText(item)|]; IsSpace(c) || IsMark(c) || c == '>'
    ensures PayloadEnd(text, pos, false) == PayloadEnd(text, pos + |ItemText(item)|, false)
  {
    hide PayloadEnd, At, SlashFlaw, GapsText, Scans, IsSpace;
    match item
    case Quoted(quote, path) => QuotedScanned(text, pos, quote, path);
    case Bare(path) => BareScanned(text, pos, path);
    case Version(_, _, _, _) => VersionScanned(text, pos, item);
  }

  lemma {:induction false} MarkTaken(text: string, pos: nat)
    requires pos < |text| && IsMark(text[pos])
    ensures PayloadEnd(text, pos, false) == PayloadEnd(text, pos + 1, false) && Blanks(text, pos) == pos
  {
    hide LineEnd, BlockEnd, Unquote, FindFrom, At;
    AtComment(text, pos);
  }

  lemma {:induction false} SepScanned(text: string, pos: nat, s: Sep)
    requires SepOk(s) && At(text, pos, SepText(s))
    ensures pos + |SepText(s)| <= |text| && PayloadEnd(text, pos, false) == PayloadEnd(text, pos + |SepText(s)|, false)
  {
    hide PayloadEnd, GapOk, GapText, IsMark, At;
    match s
    case Blank(g) => GapTaken(text, pos, g);
    case Mark(c) =>
      AtOne(text, pos, c);
      MarkTaken(text, pos);
  }

  lemma {:induction false} SepsScanned(text: string, pos: nat, seps: seq<Sep>)
    requires SepsOk(seps) && At(text, pos, SepsText(seps))
    ensures pos + |SepsText(seps)| <= |text|
    ensures PayloadEnd(text, pos, false) == PayloadEnd(text, pos + |SepsText(seps)|, false)
    decreases |seps|
  {
    hide PayloadEnd, SepOk, SepText, At;
    if seps == [] {
      AtEmpty(text, pos);
    } else {
      AtParts(text, pos, SepText(seps[0]), SepsText(seps[1..]));
      SepScanned(text, pos, seps[0]);
      SepsScanned(text, pos + |SepText(seps[0])|, seps[1..]);
    }
  }

  lemma {:induction false} AtEmpty(text: string, pos: nat)
    requires At(text, pos, "")
    ensures pos <= |text|
  {
  }

  /** The separators behind an item begin with a space or a mark. */
  lemma {:induction false} PartedBySeps(text: string, pos: nat, seps: seq<Sep>)
    requires SepsOk(seps) && seps != [] && Parts(seps[0]) && At(text, pos, SepsText(seps))
    ensures pos < |text| && (IsSpace(text[pos]) || IsMark(text[pos]))
  {
    hide At, IsSpace, IsMark;
    AtParts(text, pos, SepText(seps[0]), SepsText(seps[1..]));
    assert SepOk(seps[0]);
    AtOne(text, pos, match seps[0] case Blank(g) => g.c case Mark(c) => c);
  }

  lemma {:induction false} GroupsScanned(text: string, pos: nat, groups: seq<Group>)
    requires GroupsOk(groups) && AllScan(groups) && At(text, pos, GroupsText(groups) + ['>'])
    ensures pos <= |text| && PayloadEnd(text, pos, false) == Some(pos + |GroupsText(groups)|)
    decreases |groups|
  {
    hide PayloadEnd, At, ItemText, SepsText, ItemOk, ItemScans, IsSpace, IsMark;
    if groups == [] {
      assert GroupsText(groups) + ['>'] == ['>'];
      AtOne(text, pos, '>');
      BracketEnds(text, pos);
    } else {
      var g := groups[0];
      var rest := GroupsText(groups[1..]) + ['>'];
      assert GroupsText(groups) + ['>'] == ItemText(g.item) + (SepsText(g.seps) + rest);
      AtParts(text, pos, ItemText(g.item), SepsText(g.seps) + rest);
      var mid := pos + |ItemText(g.item)|;
      AtParts(text, mid, SepsText(g.seps), rest);
      if g.seps == [] {
        assert groups[1..] == [];
        NoSeps();
        assert rest == ['>'];
        AtOne(text, mid, '>');
      } else {
        PartedBySeps(text, mid, g.seps);
      }
      ItemScanned(text, pos, g.item);
      SepsScanned(text, mid, g.seps);
      GroupsScanned(text, mid + |SepsText(g.seps)|, groups[1..]);
    }
  }

  lemma {:induction false} NoSeps()
    ensures SepsText([]) == ""
  {
  }

  lemma {:induction false} BracketEnds(text: string, pos: nat)
    requires pos < |text| && text[pos] == '>'
    ensures PayloadEnd(text, pos, false) == Some(pos)
  {
  }

  // ----- directives -----

  function PayloadText(lead: seq<Sep>, groups: seq<Group>): string { SepsText(lead) + GroupsText(groups) }

  /** A directive as it may be written. */
  function DirectiveText(gaps: seq<Gap>, payload: string): string {
    "import" + (GapsText(gaps) + (['<'] + (payload + ['>'])))
  }

  /** The text stands at `pos`, with no letter, digit, underscore or slash right before it. */
  predicate Stands(source: string, pos: nat, text: string) {
    At(source, pos, text) && (pos == 0 || !IsBoundary(source[pos - 1]))
  }

  /** The parts of a directive, one behind the other. */
  lemma {:induction false} DirectiveParted(source: string, pos: nat, gaps: seq<Gap>, payload: string)
    requires At(source, pos, DirectiveText(gaps, payload))
    ensures var open := pos + 6 + |GapsText(gaps)|;
            && At(source, pos, "import") && At(source, pos + 6, GapsText(gaps))
            && open < |source| && source[open] == '<' && At(source, open + 1, payload + ['>'])
  {
    hide GapsText, At;
    var inner := ['<'] + (payload + ['>']);
    AtParts(source, pos, "import", GapsText(gaps) + inner);
    AtParts(source, pos + 6, GapsText(gaps), inner);
    AtParts(source, pos + 6 + |GapsText(gaps)|, ['<'], payload + ['>']);
    AtOne(source, pos + 6 + |GapsText(gaps)|, '<');
  }

  /** The bracket opens behind the word and its gaps. */
  lemma {:induction false} DirectiveOpens(source: string, pos: nat, gaps: seq<Gap>, payload: string)
    requires GapsOk(gaps) && Stands(source, pos, DirectiveText(gaps, payload))
    ensures var start := pos + 7 + |GapsText(gaps)|;
            && PayloadStart(source, pos, "import") == Some(start) && PayloadStart(source, pos, "include").None?
            && pos < |source| && !IsQuote(source[pos]) && !At(source, pos, "//") && !At(source, pos, "/*")
            && At(source, start, payload + ['>'])
  {
    hide Blanks, GapsText, At, IsBoundary, DirectiveText;
    DirectiveParted(source, pos, gaps, payload);
    WordIs(source, pos);
    var open := pos + 6 + |GapsText(gaps)|;
    GapsTaken(source, pos + 6, gaps);
    BracketIsNoBlank(source, open);
    WordEnds(source, pos + 6, gaps);
    AtComment(source, pos);
    NoInclude(source, pos);
  }

  lemma {:induction false} BracketIsNoBlank(source: string, pos: nat)
    requires pos < |source| && source[pos] == '<'
    ensures Blanks(source, pos) == pos
  {
    hide Blanks;
    BlanksComment(source, pos);
  }

  lemma {:induction false} WordIs(source: string, pos: nat)
    requires At(source, pos, "import")
    ensures pos + 6 <= |source| && source[pos] == 'i' && source[pos + 1] == 'm'
  {
    hide At;
    AtIndex(source, pos, "import", 0);
    AtIndex(source, pos, "import", 1);
    AtIndex(source, pos, "import", 5);
  }

  lemma {:induction false} NoInclude(source: string, pos: nat)
    requires pos + 1 < |source| && source[pos + 1] == 'm'
    ensures !At(source, pos, "include")
  {
    if At(source, pos, "include") {
      AtIndex(source, pos, "include", 1);
    }
  }

  lemma {:induction false} SpaceEndsWord(c: char)
    requires IsSpace(c)
    ensures !IsBoundary(c)
  {
  }

  /** A gap ends a word: it begins with a space or is a comment. */
  lemma {:induction false} GapEndsWord(source: string, pos: nat, g: Gap)
    requires GapOk(g) && At(source, pos, GapText(g))
    ensures pos < |source| && (!IsBoundary(source[pos]) || At(source, pos, "//") || At(source, pos, "/*"))
  {
    hide At, IsBoundary, IsSpace;
    match g
    case Space(c) =>
      AtOne(source, pos, c);
      SpaceEndsWord(c);
    case Line(note) =>
      assert GapText(g) == "//" + (note + ['\n']);
      AtParts(source, pos, "//", note + ['\n']);
      AtIndex(source, pos, "//", 0);
    case Block(note) =>
      assert GapText(g) == "/*" + (note + "*/");
      AtParts(source, pos, "/*", note + "*/");
      AtIndex(source, pos, "/*", 0);
  }

  /** What follows the word ends it: a space, a comment or the bracket. */
  lemma {:induction false} WordEnds(source: string, pos: nat, gaps: seq<Gap>)
    requires GapsOk(gaps) && At(source, pos, GapsText(gaps))
    requires pos + |GapsText(gaps)| < |source| && source[pos + |GapsText(gaps)|] == '<'
    ensures pos < |source| && (!IsBoundary(source[pos]) || At(source, pos, "//") || At(source, pos, "/*"))
  {
    hide At, GapText, GapOk;
    if gaps != [] {
      AtParts(source, pos, GapText(gaps[0]), GapsText(gaps[1..]));
      GapEndsWord(source, pos, gaps[0]);
    }
  }

  /** A directive whose payload is scanned to its end is what `Look` finds. */
  lemma {:induction false} DirectiveLooks(source: string, pos: nat, gaps: seq<Gap>, payload: string)
    requires GapsOk(gaps) && Stands(source, pos, DirectiveText(gaps, payload))
    requires var start := pos + 7 + |GapsText(gaps)|;
             start <= |source| && PayloadEnd(source, start, false) == Some(start + |payload|)
    ensures pos < |source| && Look(source, pos) == Directive(pos + 7 + |GapsText(gaps)|, pos + 7 + |GapsText(gaps)| + |payload|)
  {
    hide PayloadEnd, PayloadStart, GapsText, At, Stands, DirectiveText;
    DirectiveOpens(source, pos, gaps, payload);
  }

  lemma {:induction false} PayloadScanned(source: string, start: nat, lead: seq<Sep>, groups: seq<Group>)
    requires SepsOk(lead) && GroupsOk(groups) && AllScan(groups) && At(source, start, PayloadText(lead, groups) + ['>'])
    ensures start <= |source| && PayloadEnd(source, start, false) == Some(start + |PayloadText(lead, groups)|)
    ensures At(source, start, PayloadText(lead, groups))
  {
    hide PayloadEnd, SepsText, GroupsText, GroupsOk, AllScan, SepsOk, At;
    assert PayloadText(lead, groups) + ['>'] == SepsText(lead) + (GroupsText(groups) + ['>']);
    AtParts(source, start, PayloadText(lead, groups), ['>']);
    AtParts(source, start, SepsText(lead), GroupsText(groups) + ['>']);
    SepsScanned(source, start, lead);
    GroupsScanned(source, start + |SepsText(lead)|, groups);
  }

  /** Wherever it stands, a directive as it may be written is found, with its payload: gaps of
      spaces and comments, quoted and bare paths, versions, escaped quotes, and '>' inside quotes
      and comments. */
  lemma {:induction false} DirectiveIsFound(source: string, pos: nat, gaps: seq<Gap>, lead: seq<Sep>, groups: seq<Group>)
    requires GapsOk(gaps) && SepsOk(lead) && GroupsOk(groups) && AllScan(groups)
    requires Stands(source, pos, DirectiveText(gaps, PayloadText(lead, groups)))
    ensures var start := pos + 7 + |GapsText(gaps)|;
            var end := start + |PayloadText(lead, groups)|;
            && pos < |source| && Look(source, pos) == Directive(start, end)
            && source[start..end] == PayloadText(lead, groups)
  {
    hide PayloadEnd, GapsText, PayloadText, GroupsOk, AllScan, SepsOk, At, Stands, DirectiveText, Look, PayloadStart;
    var payload := PayloadText(lead, groups);
    DirectiveOpens(source, pos, gaps, payload);
    PayloadScanned(source, pos + 7 + |GapsText(gaps)|, lead, groups);
    AtIs(source, pos + 7 + |GapsText(gaps)|, payload);
    DirectiveLooks(source, pos, gaps, payload);
  }

  // ----- escaped paths -----

  lemma {:induction false} EscapedScans(path: string)
    ensures Scans('"', Escape(path))
    decreases |path|
  {
    if path != "" {
      EscapedScans(path[1..]);
      var e := Escape(path);
      if path[0] == '"' || path[0] == '\\' {
        assert e[0] == '\\' && e[2..] == Escape(path[1..]);
      } else {
        assert e[0] == path[0] && e[1..] == Escape(path[1..]);
      }
    }
  }

  function EscapedGroup(path: string): seq<Group> { [Group(Quoted('"', Escape(path)), [])] }

  lemma {:induction false} EscapedGroupText(path: string)
    ensures PayloadText([], EscapedGroup(path)) == QuotedText('"', Escape(path)) && GroupsOk(EscapedGroup(path))
  {
    hide Escape;
    var g := EscapedGroup(path);
    assert g[1..] == [] && GroupsOk(g[1..]);
    assert GroupsText(g) == ItemText(g[0].item) + SepsText([]) + GroupsText([]);
  }

  /** A path in double quotes, escaped as in other literals, is found as the payload of its
      directive, even if it contains '>', quotes, comment marks or whole directives. */
  lemma {:induction false} QuotedImportIsFound(source: string, pos: nat, gaps: seq<Gap>, path: string)
    requires GapsOk(gaps) && Stands(source, pos, DirectiveText(gaps, QuotedText('"', Escape(path))))
    ensures var start := pos + 7 + |GapsText(gaps)|;
            var end := start + |Escape(path)| + 2;
            pos < |source| && Look(source, pos) == Directive(start, end) && source[start..end] == QuotedText('"', Escape(path))
  {
    hide Escape, GapsText, Stands, DirectiveText, Look, Scans, GroupsOk, PayloadText;
    EscapedGroupText(path);
    EscapedScans(path);
    NoSepsOk();
    DirectiveIsFound(source, pos, gaps, [], EscapedGroup(path));
  }

  lemma {:induction false} NoSepsOk()
    ensures SepsOk([])
  {
  }
}
