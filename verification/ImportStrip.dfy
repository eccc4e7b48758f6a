/** What remains of a source, in terms of how it is written. */
module ImportStrip {
  import opened ImportScan
  import opened ImportGrammar
  import opened Imports

  /** A stretch of plain text, a literal, a comment, or an import directive. */
  datatype Chunk =
    | Plain(text: string)
    | Literal(quote: char, text: string)
    | Note(gap: Gap)
    | Directed(gaps: seq<Gap>, lead: seq<Sep>, groups: seq<Group>)

  predicate Contains(text: string, word: string) { exists i: nat :: i < |text| && At(text, i, word) }

  /** Text without quotes, without the beginning of a comment, and without the words of directives. */
  predicate PlainOk(text: string) {
    && text != "" && !Contains(text, "import") && !Contains(text, "include")
    && forall i: nat :: i < |text| ==> CharOk(text, i)
  }

  predicate CharOk(text: string, i: nat)
    requires i < |text|
  {
    !IsQuote(text[i]) && (text[i] == '/' ==> i + 1 < |text| && text[i + 1] != '/' && text[i + 1] != '*')
  }

  predicate ChunkOk(c: Chunk) {
    match c
    case Plain(text) => PlainOk(text)
    case Literal(quote, text) => IsQuote(quote) && Scans(quote, text)
    case Note(gap) => !gap.Space? && GapOk(gap)
    case Directed(gaps, lead, groups) => GapsOk(gaps) && SepsOk(lead) && GroupsOk(groups) && AllScan(groups)
  }

  function ChunkText(c: Chunk): string {
    match c
    case Plain(text) => text
    case Literal(quote, text) => QuotedText(quote, text)
    case Note(gap) => GapText(gap)
    case Directed(gaps, lead, groups) => DirectiveText(gaps, PayloadText(lead, groups))
  }

  /** Whether a directive may follow: no letter, digit, underscore or slash is right before it. */
  predicate Frees(c: Chunk) {
    match c
    case Plain(text) => text != "" && !IsBoundary(text[|text| - 1])
    case Note(gap) => gap.Line?
    case _ => true
  }

  /** A row of chunks: plain text is not cut in two, and directives stand free. */
  predicate RowOk(row: seq<Chunk>, free: bool) {
    row == [] ||
    (&& ChunkOk(row[0]) && (row[0].Directed? ==> free)
     && (row[0].Plain? && |row| > 1 ==> !row[1].Plain?)
     && RowOk(row[1..], Frees(row[0])))
  }

  function RowText(row: seq<Chunk>): string {
    if row == [] then "" else ChunkText(row[0]) + RowText(row[1..])
  }

  /** The row without its directives. */
  function Remains(row: seq<Chunk>): string {
    if row == [] then "" else (if row[0].Directed? then "" else ChunkText(row[0])) + Remains(row[1..])
  }

  // ----- steps of the scan -----

  /** A step of the scan over text that is kept. */
  lemma {:induction false} KeepStep(source: string, i: nat, next: nat, end: nat)
    requires i < next <= end <= |source| && Look(source, i) == Skip(next)
    requires Strip(source, next) == source[next..end] + Strip(source, end) && Readable(source, next) == Readable(source, end)
    ensures Strip(source, i) == source[i..end] + Strip(source, end) && Readable(source, i) == Readable(source, end)
  {
    hide Look;
    assert source[i..next] + source[next..end] == source[i..end];
    assert source[i..next] + (source[next..end] + Strip(source, end)) == source[i..next] + source[next..end] + Strip(source, end);
  }

  lemma {:induction false} KeepNothing(source: string, i: nat)
    requires i <= |source|
    ensures Strip(source, i) == source[i..i] + Strip(source, i)
  {
    hide Look;
  }

  lemma {:induction false} KeepOne(source: string, i: nat, next: nat)
    requires i < next <= |source| && Look(source, i) == Skip(next)
    ensures Strip(source, i) == source[i..next] + Strip(source, next) && Readable(source, i) == Readable(source, next)
  {
    hide Look;
  }

  // ----- plain text -----

  lemma {:induction false} LettersAreBoundary(word: string, k: nat)
    requires word in ["import", "include"] && k < |word|
    ensures IsBoundary(word[k]) && word[k] != '/' && !IsQuote(word[k])
  {
    assert word == "import" || word == "include";
  }

  /** What may stand behind plain text: nothing, or what no word of a directive runs into. */
  predicate EndsPlain(text: string, source: string, end: nat) {
    end >= |source| || IsQuote(source[end]) || source[end] == '/' || (text != "" && !IsBoundary(text[|text| - 1]))
  }

  lemma {:induction false} AtInside(source: string, pos: nat, text: string, i: nat, word: string)
    requires At(source, pos, text) && At(source, pos + i, word) && i + |word| <= |text|
    ensures At(text, i, word)
  {
    forall k | 0 <= k < |word|
      ensures text[i..i + |word|][k] == word[k]
    {
      AtIndex(source, pos, text, i + k);
      AtIndex(source, pos + i, word, k);
    }
  }

  /** No directive begins inside plain text. */
  lemma {:induction false} NoWordInside(source: string, pos: nat, text: string, i: nat, word: string)
    requires At(source, pos, text) && EndsPlain(text, source, pos + |text|) && i < |text| && !Contains(text, word)
    requires word in ["import", "include"]
    ensures !At(source, pos + i, word)
  {
    hide IsBoundary;
    if At(source, pos + i, word) {
      assert |word| == 6 || |word| == 7;
      AtIs(source, pos, text);
      if i + |word| <= |text| {
        AtInside(source, pos, text, i, word);
      } else {
        var k := |text| - 1 - i;
        AtIndex(source, pos + i, word, k);
        AtIndex(source, pos, text, |text| - 1);
        LettersAreBoundary(word, k);
        AtIndex(source, pos + i, word, k + 1);
        LettersAreBoundary(word, k + 1);
      }
    }
  }

  lemma {:induction false} NoStart(source: string, pos: nat, word: string)
    requires pos <= |source| && !At(source, pos, word)
    ensures PayloadStart(source, pos, word).None?
  {
  }

  lemma {:induction false} PlainStep(source: string, pos: nat, text: string, i: nat)
    requires PlainOk(text) && At(source, pos, text) && EndsPlain(text, source, pos + |text|) && i < |text|
    ensures pos + i < |source| && Look(source, pos + i) == Skip(pos + i + 1)
  {
    hide At, IsBoundary, PayloadStart, PayloadEnd, LineEnd, BlockEnd, Unquote, Contains, EndsPlain;
    AtIndex(source, pos, text, i);
    assert CharOk(text, i);
    if text[i] == '/' {
      AtIndex(source, pos, text, i + 1);
    }
    AtComment(source, pos + i);
    NoWordInside(source, pos, text, i, "import");
    NoWordInside(source, pos, text, i, "include");
    NoStart(source, pos + i, "import");
    NoStart(source, pos + i, "include");
  }

  lemma {:induction false} PlainKept(source: string, pos: nat, text: string, i: nat)
    requires PlainOk(text) && At(source, pos, text) && EndsPlain(text, source, pos + |text|) && i <= |text|
    ensures pos + |text| <= |source|
    ensures Strip(source, pos + i) == source[pos + i..pos + |text|] + Strip(source, pos + |text|)
    ensures Readable(source, pos + i) == Readable(source, pos + |text|)
    decreases |text| - i
  {
    hide At, Look, PlainOk, EndsPlain, Strip, Readable;
    AtIs(source, pos, text);
    if i == |text| {
      KeepNothing(source, pos + i);
    } else {
      PlainStep(source, pos, text, i);
      PlainKept(source, pos, text, i + 1);
      KeepStep(source, pos + i, pos + i + 1, pos + |text|);
    }
  }

  // ----- literals and comments -----

  lemma {:induction false} LiteralKept(source: string, pos: nat, quote: char, text: string)
    requires IsQuote(quote) && Scans(quote, text) && At(source, pos, QuotedText(quote, text))
    ensures var end := pos + |text| + 2;
            && end <= |source| && Strip(source, pos) == source[pos..end] + Strip(source, end)
            && Readable(source, pos) == Readable(source, end)
  {
    hide At, Scans, Unquote, Strip, Readable, PayloadStart, PayloadEnd;
    AtParts(source, pos, [quote], text + [quote]);
    AtOne(source, pos, quote);
    ScansSkips(source, pos + 1, quote, text);
    KeepOne(source, pos, pos + |text| + 2);
  }

  lemma {:induction false} LineKept(source: string, pos: nat, note: string)
    requires '\n' !in note && At(source, pos, "//" + (note + ['\n']))
    ensures var end := pos + |note| + 3;
            && end <= |source| && Strip(source, pos) == source[pos..end] + Strip(source, end)
            && Readable(source, pos) == Readable(source, end)
  {
    hide At, LineEnd, BlockEnd, Strip, Readable, PayloadStart, PayloadEnd, Look;
    AtParts(source, pos, "//", note + ['\n']);
    AtIndex(source, pos, "//", 0);
    AtIndex(source, pos, "//", 1);
    LineEndsAt(source, pos + 2, note);
    AtParts(source, pos + 2, note, ['\n']);
    AtOne(source, pos + 2 + |note|, '\n');
    NoteLooks(source, pos);
    NewlineLooks(source, pos + 2 + |note|);
    KeepOne(source, pos + 2 + |note|, pos + 3 + |note|);
    KeepStep(source, pos, pos + 2 + |note|, pos + 3 + |note|);
  }

  lemma {:induction false} NoteLooks(source: string, pos: nat)
    requires pos + 2 <= |source| && source[pos] == '/'
    ensures source[pos + 1] == '/' ==> Look(source, pos) == Skip(LineEnd(source, pos + 2))
    ensures source[pos + 1] == '*' ==> Look(source, pos) == Skip(BlockEnd(source, pos + 2))
  {
    hide At, LineEnd, BlockEnd, PayloadStart, PayloadEnd;
    AtComment(source, pos);
  }

  lemma {:induction false} NewlineLooks(source: string, pos: nat)
    requires pos < |source| && source[pos] == '\n'
    ensures Look(source, pos) == Skip(pos + 1)
  {
    hide At, LineEnd, BlockEnd, PayloadStart, PayloadEnd;
    AtComment(source, pos);
    if At(source, pos, "import") { AtIndex(source, pos, "import", 0); }
    if At(source, pos, "include") { AtIndex(source, pos, "include", 0); }
    NoStart(source, pos, "import");
    NoStart(source, pos, "include");
  }

  lemma {:induction false} BlockKept(source: string, pos: nat, note: string)
    requires (forall j :: 0 <= j < |note| ==> !At(note, j, "*/")) && At(source, pos, "/*" + (note + "*/"))
    ensures var end := pos + |note| + 4;
            && end <= |source| && Strip(source, pos) == source[pos..end] + Strip(source, end)
            && Readable(source, pos) == Readable(source, end)
  {
    hide At, LineEnd, BlockEnd, Strip, Readable, PayloadStart, PayloadEnd, Look;
    AtParts(source, pos, "/*", note + "*/");
    AtIndex(source, pos, "/*", 0);
    AtIndex(source, pos, "/*", 1);
    AtParts(source, pos + 2, note, "*/");
    AtIndex(source, pos + 2 + |note|, "*/", 1);
    forall j | pos + 2 <= j < pos + 2 + |note|
      ensures !At(source, j, "*/")
    {
      NoteHasNoEnd(source, pos + 2, note, j);
    }
    BlockEndsAt(source, pos + 2, pos + 2 + |note|);
    NoteLooks(source, pos);
    KeepOne(source, pos, pos + 4 + |note|);
  }

  // ----- rows -----

  /** A chunk other than a directive is kept as it is. */
  lemma {:induction false} ChunkKept(source: string, pos: nat, c: Chunk)
    requires ChunkOk(c) && !c.Directed? && At(source, pos, ChunkText(c))
    requires c.Plain? ==> EndsPlain(c.text, source, pos + |c.text|)
    ensures var end := pos + |ChunkText(c)|;
            && end <= |source| && Strip(source, pos) == ChunkText(c) + Strip(source, end)
            && Readable(source, pos) == Readable(source, end)
  {
    hide At, PlainOk, Scans, EndsPlain, Strip, Readable;
    AtIs(source, pos, ChunkText(c));
    match c
    case Plain(text) => PlainKept(source, pos, text, 0);
    case Literal(quote, text) => LiteralKept(source, pos, quote, text);
    case Note(Line(note)) =>
      assert GapText(c.gap) == "//" + (note + ['\n']);
      LineKept(source, pos, note);
    case Note(Block(note)) =>
      assert GapText(c.gap) == "/*" + (note + "*/");
      BlockKept(source, pos, note);
  }

  /** A directive is dropped. */
  lemma {:induction false} ChunkDropped(source: string, pos: nat, c: Chunk)
    requires ChunkOk(c) && c.Directed? && Stands(source, pos, ChunkText(c))
    ensures var end := pos + |ChunkText(c)|;
            && end <= |source| && Strip(source, pos) == Strip(source, end) && Readable(source, pos) == Readable(source, end)
  {
    hide Look, GapsText, PayloadText, GroupsOk, SepsOk, AllScan, At, Strip, Readable, DirectiveText, Stands;
    DirectiveIsFound(source, pos, c.gaps, c.lead, c.groups);
    DirectiveLength(c.gaps, PayloadText(c.lead, c.groups));
    DropDirective(source, pos);
  }

  lemma {:induction false} DirectiveLength(gaps: seq<Gap>, payload: string)
    ensures |DirectiveText(gaps, payload)| == 8 + |GapsText(gaps)| + |payload|
  {
    hide GapsText;
  }

  lemma {:induction false} DropDirective(source: string, pos: nat)
    requires pos < |source| && Look(source, pos).Directive?
    ensures var end := Look(source, pos).end + 1;
            Strip(source, pos) == Strip(source, end) && Readable(source, pos) == Readable(source, end)
  {
    hide Look;
  }

  lemma {:induction false} NothingRemains(source: string)
    ensures Strip(source, |source|) == "" && Readable(source, |source|)
  {
  }

  lemma {:induction false} ChunkBegins(c: Chunk)
    requires ChunkOk(c) && !c.Plain? && !c.Directed?
    ensures ChunkText(c) != "" && (IsQuote(ChunkText(c)[0]) || ChunkText(c)[0] == '/')
  {
    hide Scans, At;
    match c
    case Literal(quote, text) => assert ChunkText(c)[0] == quote;
    case Note(gap) => assert ChunkText(c)[0] == '/';
  }

  /** Behind plain text comes the end, a quote, a slash, or a directive that stands free. */
  lemma {:induction false} PlainEnds(source: string, pos: nat, text: string, rest: seq<Chunk>)
    requires text != "" && RowOk(rest, !IsBoundary(text[|text| - 1])) && (rest != [] ==> !rest[0].Plain?)
    requires At(source, pos, RowText(rest)) && pos + |RowText(rest)| == |source|
    ensures EndsPlain(text, source, pos)
  {
    hide At, ChunkOk, ChunkText, IsBoundary, Frees;
    if rest != [] && !rest[0].Directed? {
      ChunkBegins(rest[0]);
      AtParts(source, pos, ChunkText(rest[0]), RowText(rest[1..]));
      AtIndex(source, pos, ChunkText(rest[0]), 0);
    }
  }

  /** For a source as it may be written, what remains is the row without its directives, and no
      error is found. */
  lemma {:induction false} RowIsStripped(source: string, pos: nat, row: seq<Chunk>, free: bool)
    requires RowOk(row, free) && At(source, pos, RowText(row)) && pos + |RowText(row)| == |source|
    requires free ==> pos == 0 || !IsBoundary(source[pos - 1])
    ensures pos <= |source| && Strip(source, pos) == Remains(row) && Readable(source, pos)
    decreases |row|
  {
    hide At, ChunkOk, ChunkText, IsBoundary, Frees, Strip, Readable;
    if row == [] {
      NothingRemains(source);
    } else {
      AtParts(source, pos, ChunkText(row[0]), RowText(row[1..]));
      var end := pos + |ChunkText(row[0])|;
      FreeBehind(source, pos, row[0]);
      RowIsStripped(source, end, row[1..], Frees(row[0]));
      if row[0].Directed? {
        ChunkDropped(source, pos, row[0]);
      } else {
        if row[0].Plain? {
          PlainChunk(row[0]);
          PlainEnds(source, end, row[0].text, row[1..]);
        }
        ChunkKept(source, pos, row[0]);
      }
    }
  }

  lemma {:induction false} PlainChunk(c: Chunk)
    requires c.Plain? && ChunkOk(c)
    ensures ChunkText(c) == c.text && c.text != "" && Frees(c) == !IsBoundary(c.text[|c.text| - 1])
  {
  }

  /** Behind a chunk that frees, no boundary character stands. */
  lemma {:induction false} FreeBehind(source: string, pos: nat, c: Chunk)
    requires ChunkOk(c) && At(source, pos, ChunkText(c))
    ensures var end := pos + |ChunkText(c)|; end <= |source| && |ChunkText(c)| > 0 && (Frees(c) ==> !IsBoundary(source[end - 1]))
  {
    hide At, Scans, GroupsOk, SepsOk, AllScan, GapsOk, Contains;
    AtIs(source, pos, ChunkText(c));
    ChunkEnds(c);
    AtIndex(source, pos, ChunkText(c), |ChunkText(c)| - 1);
  }

  lemma {:induction false} ChunkEnds(c: Chunk)
    requires ChunkOk(c)
    ensures var t := ChunkText(c); t != "" && (Frees(c) ==> !IsBoundary(t[|t| - 1]))
  {
    hide Scans, GroupsOk, SepsOk, AllScan, GapsOk, Contains, GapsText, PayloadText, At;
    match c
    case Plain(_) =>
    case Literal(quote, text) => assert ChunkText(c)[|text| + 1] == quote;
    case Note(gap) =>
      if gap.Line? {
        assert ChunkText(c)[|gap.note| + 2] == '\n';
      }
    case Directed(gaps, lead, groups) =>
      var t := ChunkText(c);
      assert t[|t| - 1] == '>';
  }

  /** The stripped source is the source as it was written, less its import directives. */
  lemma {:induction false} SourceIsStripped(row: seq<Chunk>)
    requires RowOk(row, true)
    ensures Strip(RowText(row), 0) == Remains(row) && Readable(RowText(row), 0)
  {
    hide RowOk, RowText, Remains, Strip, Readable;
    var source := RowText(row);
    assert source[0..|source|] == source;
    RowIsStripped(source, 0, row, true);
  }
}
