/** Payloads are read as they are written: exactly when. */
module ImportReading {
  import opened Ir
  import opened Texts
  import opened Decimals
  import opened ImportScan
  import opened ImportPayload
  import opened ImportGrammar

  // ----- slash paths and versions -----

  function SlashText(words: seq<string>): string {
    if words == [] then "" else ['/'] + (words[0] + SlashText(words[1..]))
  }

  predicate WordsOk(words: seq<string>) { forall w :: w in words ==> IsWord(w) && !IsReserved(w) }

  lemma {:induction false} WordHasNoSlash(w: string)
    requires IsWord(w)
    ensures '/' !in w
  {
    assert w == [w[0]] + w[1..];
  }

  /** A word in front of a slash, or of the end of the text, is cut off as a whole. */
  lemma {:induction false} WordIsCut(text: string, start: nat, word: string, rest: string)
    requires '/' !in word && At(text, start, word + rest) && start + |word + rest| == |text| && (rest == "" || rest[0] == '/')
    ensures start <= |text| && SlashFrom(text, start) == start + |word| && text[start..start + |word|] == word
    ensures At(text, start + |word|, rest)
  {
    hide At;
    AtParts(text, start, word, rest);
    AtIs(text, start, word);
    forall j | start <= j < start + |word|
      ensures text[j] != '/'
    {
      AtIndex(text, start, word, j - start);
    }
    if rest != "" {
      AtIndex(text, start + |word|, rest, 0);
    }
    SlashFound(text, start, start + |word|);
  }

  /** The words of a path, from the one that begins at `start` on. */
  lemma {:induction false} WordsAreSound(text: string, start: nat, words: seq<string>)
    requires words != [] && WordsOk(words) && start >= 1 && At(text, start - 1, SlashText(words)) && start - 1 + |SlashText(words)| == |text|
    ensures start < |text| && WordsFlaw(text, start).None? && text[|text| - 1] != '/'
    decreases |words|
  {
    hide IsReserved, IsWord, At, SlashFrom, WordsOk;
    var word, rest := words[0], SlashText(words[1..]);
    WordsOkHead(words);
    AtParts(text, start - 1, ['/'], word + rest);
    WordHasNoSlash(word);
    WordIsNotEmpty(word);
    assert rest != "" ==> rest[0] == '/';
    WordIsCut(text, start, word, rest);
    if words[1..] == [] {
      assert text[|text| - 1] == word[|word| - 1];
    } else {
      WordsAreSound(text, start + |word| + 1, words[1..]);
    }
  }

  lemma {:induction false} WordsOkHead(words: seq<string>)
    requires words != [] && WordsOk(words)
    ensures IsWord(words[0]) && !IsReserved(words[0]) && WordsOk(words[1..])
  {
    hide IsWord, IsReserved;
    assert words[0] in words && forall w :: w in words[1..] ==> w in words;
  }

  lemma {:induction false} WordIsNotEmpty(w: string)
    requires IsWord(w)
    ensures w != ""
  {
  }

  lemma {:induction false} SlashFound(text: string, pos: nat, end: nat)
    requires pos <= end <= |text| && (end < |text| ==> text[end] == '/') && forall j :: pos <= j < end ==> text[j] != '/'
    ensures SlashFrom(text, pos) == end
  {
  }

  lemma {:induction false} WordsOkOn(word: string, more: seq<string>)
    requires IsWord(word) && !IsReserved(word) && WordsOk(more)
    ensures WordsOk([word] + more) && SlashText([word] + more) == ['/'] + (word + SlashText(more))
  {
    hide IsWord, IsReserved;
    assert ([word] + more)[1..] == more;
  }

  lemma {:induction false} CutInThree(text: string, start: nat, end: nat)
    requires 1 <= start <= end <= |text| && text[start - 1] == '/'
    ensures text[start - 1..] == ['/'] + (text[start..end] + text[end..])
  {
  }

  lemma {:induction false} WordsAreFound(text: string, start: nat) returns (words: seq<string>)
    requires 1 <= start <= |text| && text[start - 1] == '/' && WordsFlaw(text, start).None? && text[|text| - 1] != '/'
    ensures words != [] && WordsOk(words) && SlashText(words) == text[start - 1..]
    decreases |text| - start
  {
    hide IsReserved, IsWord, WordsOk, SlashText;
    var end := SlashFrom(text, start);
    CutInThree(text, start, end);
    if end == |text| {
      NoWords();
      WordsOkOn(text[start..end], []);
      words := [text[start..end]] + [];
      assert text[end..] == "";
    } else {
      var more := WordsAreFound(text, end + 1);
      WordsOkOn(text[start..end], more);
      words := [text[start..end]] + more;
    }
  }

  lemma {:induction false} NoWords()
    ensures WordsOk([]) && SlashText([]) == ""
  {
  }

  /** A text is accepted as a slash path exactly if it is a row of words, none of them reserved,
      each behind a slash. */
  lemma {:induction false} SlashPathIsExact(text: string)
    ensures SlashFlaw(text).None? <==> exists words: seq<string> :: words != [] && WordsOk(words) && text == SlashText(words)
  {
    hide WordsFlaw, WordsOk;
    if SlashFlaw(text).None? {
      var words := WordsAreFound(text, 1);
      assert text[0..] == text;
    }
    if words: seq<string> :| words != [] && WordsOk(words) && text == SlashText(words) {
      assert text[0..|text|] == text;
      SlashTextShape(words);
      WordsAreSound(text, 1, words);
    }
  }

  lemma {:induction false} SlashTextShape(words: seq<string>)
    requires words != [] && WordsOk(words)
    ensures |SlashText(words)| >= 2 && SlashText(words)[0] == '/'
  {
    hide IsReserved;
    assert words[0] in words;
  }

  function VersionText(parts: seq<nat>): string {
    if parts == [] then "" else if |parts| == 1 then Decimal(parts[0]) else Decimal(parts[0]) + (['.'] + VersionText(parts[1..]))
  }

  /** A number read digit by digit. */
  lemma {:induction false} DigitsRead(text: string, pos: nat, s: string, n: nat, parts: seq<nat>)
    requires AllDigits(s) && n <= |s| && At(text, pos, s)
    ensures pos + |s| <= |text|
    ensures VersionFrom(text, pos + n, Value(s[..n]), n > 0, parts) == VersionFrom(text, pos + |s|, Value(s), |s| > 0, parts)
    decreases |s| - n
  {
    hide At;
    AtIs(text, pos, s);
    if n == |s| {
      assert s[..n] == s;
    } else {
      AtIndex(text, pos, s, n);
      assert IsDigit(s[n]) && s[..n + 1][..n] == s[..n];
      DigitsRead(text, pos, s, n + 1, parts);
    }
  }

  lemma {:induction false} PartsRead(text: string, pos: nat, parts: seq<nat>, read: seq<nat>)
    requires parts != [] && At(text, pos, VersionText(parts)) && pos + |VersionText(parts)| == |text|
    ensures pos <= |text| && VersionFrom(text, pos, 0, false, read) == Ok(read + parts)
    decreases |parts|
  {
    hide At, Decimal;
    var s := Decimal(parts[0]);
    DecimalReads(parts[0]);
    if |parts| == 1 {
      DigitsRead(text, pos, s, 0, read);
      assert read + parts == read + [parts[0]];
    } else {
      AtParts(text, pos, s, ['.'] + VersionText(parts[1..]));
      AtParts(text, pos + |s|, ['.'], VersionText(parts[1..]));
      AtOne(text, pos + |s|, '.');
      DigitsRead(text, pos, s, 0, read);
      PartsRead(text, pos + |s| + 1, parts[1..], read + [parts[0]]);
      assert read + [parts[0]] + parts[1..] == read + parts;
    }
  }

  /** A version of one to three numbers is read back; longer ones are refused. */
  lemma {:induction false} VersionIsRead(parts: seq<nat>)
    requires parts != []
    ensures ParseVersion(VersionText(parts)) == if |parts| <= 3 then Ok(parts) else Fail(VersionParts(VersionText(parts)))
  {
    hide Decimal, VersionFrom;
    var text := VersionText(parts);
    DecimalReads(parts[0]);
    assert text[0..|text|] == text;
    PartsRead(text, 0, parts, []);
    assert [] + parts == parts;
  }

  // ----- reading a payload -----

  lemma {:induction false} ReadFromBlanks(text: string, p: nat, q: nat, payload: Payload)
    requires p <= |text| && q <= |text| && Blanks(text, p) == Blanks(text, q)
    ensures ReadFrom(text, p, payload) == ReadFrom(text, q, payload)
  {
    hide Blanks, ReadEntry, IsSpace;
    BlanksStop(text, p);
  }

  lemma {:induction false} MarkRead(text: string, pos: nat, payload: Payload)
    requires pos < |text| && IsMark(text[pos])
    ensures ReadFrom(text, pos, payload) == ReadFrom(text, pos + 1, payload)
  {
    hide Blanks, ReadEntry, IsSpace, IsMark;
    MarkTaken(text, pos);
  }

  lemma {:induction false} SepsRead(text: string, pos: nat, seps: seq<Sep>, payload: Payload)
    requires SepsOk(seps) && At(text, pos, SepsText(seps))
    ensures pos + |SepsText(seps)| <= |text|
    ensures ReadFrom(text, pos, payload) == ReadFrom(text, pos + |SepsText(seps)|, payload)
    decreases |seps|
  {
    hide PayloadEnd, GapOk, GapText, IsMark, At, ReadFrom, Blanks;
    if seps == [] {
      AtEmpty(text, pos);
    } else {
      AtParts(text, pos, SepText(seps[0]), SepsText(seps[1..]));
      assert SepOk(seps[0]);
      match seps[0] {
        case Blank(g) =>
          GapTaken(text, pos, g);
          ReadFromBlanks(text, pos, pos + |GapText(g)|, payload);
        case Mark(c) =>
          AtOne(text, pos, c);
          MarkRead(text, pos, payload);
      }
      SepsRead(text, pos + |SepText(seps[0])|, seps[1..], payload);
    }
  }

  lemma {:induction false} QuotedRead(text: string, pos: nat, quote: char, s: string)
    requires IsQuote(quote) && quote !in s && At(text, pos, QuotedText(quote, s))
    ensures ReadQuoted(text, pos) == Ok(Reading(s, pos + |s| + 2)) && pos < |text| && text[pos] == quote
  {
    hide At, FindFrom;
    AtParts(text, pos, [quote], s + [quote]);
    AtOne(text, pos, quote);
    ReadsExactly(text, pos + 1, quote, s);
    AtParts(text, pos + 1, s, [quote]);
    AtIs(text, pos + 1, s);
  }

  /** An entry stands at `pos`, and no blank before it. */
  predicate Starts(text: string, pos: nat) {
    pos < |text| && !IsSpace(text[pos]) && !IsMark(text[pos]) && Blanks(text, pos) == pos
  }

  lemma {:induction false} StartsPlain(text: string, pos: nat)
    requires pos < |text| && !IsSpace(text[pos]) && !IsMark(text[pos])
    requires text[pos] != '/' || pos + 1 == |text| || (text[pos + 1] != '/' && text[pos + 1] != '*')
    ensures Starts(text, pos)
  {
    hide Blanks, IsSpace;
    BlanksComment(text, pos);
  }

  lemma {:induction false} NotKeyword(text: string, pos: nat)
    requires pos < |text| && text[pos] != 'v'
    ensures Keyword(text, pos, "version").None?
  {
    if At(text, pos, "version") {
      AtIndex(text, pos, "version", 0);
    }
  }

  lemma {:induction false} QuotedItemRead(text: string, pos: nat, quote: char, s: string, payload: Payload)
    requires IsQuote(quote) && quote !in s && At(text, pos, QuotedText(quote, s)) && Separated(text, pos + |s| + 2)
    ensures Starts(text, pos)
    ensures ReadEntry(text, pos, payload) == Ok(Progress(pos + |s| + 2, With(payload, Quoted(quote, s))))
  {
    hide Blanks, Trim, ReadQuoted, At, Separated, Keyword;
    QuotedRead(text, pos, quote, s);
    StartsPlain(text, pos);
    NotKeyword(text, pos);
  }

  lemma {:induction false} BareEndsAt(text: string, pos: nat, end: nat)
    requires pos <= end <= |text| && Separated(text, end)
    requires forall j :: pos <= j < end ==> !IsSpace(text[j]) && !IsMark(text[j])
    ensures BareEnd(text, pos) == end
    decreases end - pos
  {
    hide IsSpace, IsMark;
    if pos < end {
      BareEndsAt(text, pos + 1, end);
    }
  }

  lemma {:induction false} BareItemRead(text: string, pos: nat, path: string, payload: Payload)
    requires SlashFlaw(path).None? && At(text, pos, path) && Separated(text, pos + |path|)
    ensures Starts(text, pos) && ReadEntry(text, pos, payload) == Ok(Progress(pos + |path|, With(payload, Bare(path))))
  {
    hide Blanks, Trim, SlashFlaw, At, Separated, Keyword, BareEnd;
    SlashPathShape(path);
    AtIs(text, pos, path);
    forall j | pos <= j < pos + |path|
      ensures text[j] == path[j - pos] && !IsSpace(text[j]) && !IsMark(text[j])
    {
      AtIndex(text, pos, path, j - pos);
    }
    StartsPlain(text, pos);
    NotKeyword(text, pos);
    BareEndsAt(text, pos, pos + |path|);
    TrimmedStays(path);
  }

  /** Behind the keyword stands a space or the equals sign. */
  lemma {:induction false} KeywordStands(text: string, pos: nat, item: Phrase)
    requires item.Version? && ItemOk(item) && At(text, pos, ItemText(item))
    ensures Keyword(text, pos, "version") == Some(pos + 7)
  {
    hide ItemText, GapsText;
    VersionParted(text, pos, item);
    if item.first == [] {
      NoGaps();
    } else {
      FirstGap(text, pos + 7, item.first);
    }
  }

  lemma {:induction false} NoGaps()
    ensures GapsText([]) == ""
  {
  }

  lemma {:induction false} FirstGap(text: string, pos: nat, gaps: seq<Gap>)
    requires gaps != [] && gaps[0].Space? && GapsOk(gaps) && At(text, pos, GapsText(gaps))
    ensures pos < |text| && IsSpace(text[pos]) && !IsBoundary(text[pos])
  {
    hide At;
    assert GapOk(gaps[0]);
    AtParts(text, pos, GapText(gaps[0]), GapsText(gaps[1..]));
    AtOne(text, pos, gaps[0].c);
  }

  lemma {:induction false} VersionItemRead(text: string, pos: nat, item: Phrase, payload: Payload)
    requires item.Version? && ItemOk(item) && ItemReads(item) && At(text, pos, ItemText(item)) && Separated(text, pos + |ItemText(item)|)
    requires payload.version.None?
    ensures Starts(text, pos)
    ensures ReadEntry(text, pos, payload) == Ok(Progress(pos + |ItemText(item)|, With(payload, item)))
  {
    hide Blanks, Trim, ReadQuoted, Separated, Keyword, At, ItemText, GapsText, IsMark, IsSpace;
    VersionParted(text, pos, item);
    AtIndex(text, pos, "version", 0);
    VIsNoMark();
    StartsPlain(text, pos);
    KeywordStands(text, pos, item);
    VersionValueRead(text, pos, item);
  }

  lemma {:induction false} VersionValueRead(text: string, pos: nat, item: Phrase)
    requires item.Version? && ItemOk(item) && ItemReads(item) && At(text, pos, ItemText(item))
    ensures pos + 7 <= |text|
    ensures var b := Blanks(text, pos + 7);
            && b < |text| && text[b] == '='
            && ReadQuoted(text, Blanks(text, b + 1)) == Ok(Reading(item.text, pos + |ItemText(item)|))
  {
    hide Blanks, ReadQuoted, At, ItemText, GapsText;
    VersionParted(text, pos, item);
    GapsTaken(text, pos + 7, item.first);
    var b := pos + 7 + |GapsText(item.first)|;
    EqualsTaken(text, b);
    var c := b + 1 + |GapsText(item.second)|;
    GapsTaken(text, b + 1, item.second);
    QuotedRead(text, c, item.quote, item.text);
    QuoteIsNoBlank(text, c);
  }

  lemma {:induction false} VIsNoMark()
    ensures !IsMark('v') && !IsSpace('v')
  {
  }

  lemma {:induction false} QuoteIsNoBlank(text: string, pos: nat)
    requires pos < |text| && ReadQuoted(text, pos).Ok?
    ensures Blanks(text, pos) == pos
  {
    hide Blanks;
    BlanksComment(text, pos);
  }

  lemma {:induction false} ItemRead(text: string, pos: nat, item: Phrase, payload: Payload)
    requires ItemOk(item) && ItemReads(item) && At(text, pos, ItemText(item)) && Separated(text, pos + |ItemText(item)|)
    requires item.Version? ==> payload.version.None?
    ensures Starts(text, pos)
    ensures ReadEntry(text, pos, payload) == Ok(Progress(pos + |ItemText(item)|, With(payload, item)))
  {
    hide ReadEntry, With, Separated, At, SlashFlaw, GapsText, Starts;
    match item
    case Quoted(quote, path) => QuotedItemRead(text, pos, quote, path, payload);
    case Bare(path) => BareItemRead(text, pos, path, payload);
    case Version(_, _, _, _) => VersionItemRead(text, pos, item, payload);
  }

  lemma {:induction false} ReadFromStart(text: string, pos: nat, payload: Payload, next: nat, after: Payload)
    requires Starts(text, pos) && ReadEntry(text, pos, payload) == Ok(Progress(next, after))
    ensures next <= |text| && ReadFrom(text, pos, payload) == ReadFrom(text, next, after)
  {
    hide ReadEntry, Blanks;
  }

  lemma {:induction false} GroupsRead(text: string, pos: nat, groups: seq<Group>, payload: Payload)
    requires GroupsOk(groups) && AllRead(groups) && OneVersion(groups, payload) && At(text, pos, GroupsText(groups)) && pos + |GroupsText(groups)| == |text|
    ensures pos <= |text| && ReadFrom(text, pos, payload) == Ok(Gather(groups, payload))
    decreases |groups|
  {
    hide At, ItemText, SepsText, ItemOk, ItemReads, IsSpace, IsMark, ReadFrom, ReadEntry, With, Starts;
    if groups == [] {
      NothingRead(text, payload);
    } else {
      var g := groups[0];
      var rest := GroupsText(groups[1..]);
      assert GroupsText(groups) == ItemText(g.item) + (SepsText(g.seps) + rest);
      AtParts(text, pos, ItemText(g.item), SepsText(g.seps) + rest);
      var mid := pos + |ItemText(g.item)|;
      AtParts(text, mid, SepsText(g.seps), rest);
      if g.seps == [] {
        assert groups[1..] == [];
        NoSeps();
      } else {
        PartedBySeps(text, mid, g.seps);
      }
      ItemRead(text, pos, g.item, payload);
      ReadFromStart(text, pos, payload, mid, With(payload, g.item));
      SepsRead(text, mid, g.seps, With(payload, g.item));
      GroupsRead(text, mid + |SepsText(g.seps)|, groups[1..], With(payload, g.item));
    }
  }

  lemma {:induction false} NothingRead(text: string, payload: Payload)
    ensures ReadFrom(text, |text|, payload) == Ok(payload)
  {
  }

  /** Every payload as it may be written, whose quoted texts do not contain their quote, is read
      as what was written: entries in their order, quoted paths and versions without outer
      spaces, and comments, spaces and marks ignored. */
  lemma {:induction false} PayloadIsRead(lead: seq<Sep>, groups: seq<Group>)
    requires SepsOk(lead) && GroupsOk(groups) && AllRead(groups) && OneVersion(groups, Payload([], None))
    ensures Read(PayloadText(lead, groups)) ==
            var p := Gather(groups, Payload([], None)); if p.entries == [] then Fail(NoPath) else Ok(p)
  {
    hide SepsText, GroupsText, ReadFrom, GroupsOk, AllRead, SepsOk, Gather, OneVersion;
    var text := PayloadText(lead, groups);
    assert text[0..|text|] == text;
    assert At(text, 0, SepsText(lead) + GroupsText(groups));
    AtParts(text, 0, SepsText(lead), GroupsText(groups));
    SepsRead(text, 0, lead, Payload([], None));
    GroupsRead(text, |SepsText(lead)|, groups, Payload([], None));
  }

  // ----- escaped paths -----

  function Count(s: string, c: char): nat {
    if s == "" then 0 else (if s[0] == c then 1 else 0) + Count(s[1..], c)
  }

  lemma {:induction false} CountConcat(a: string, b: string, c: char)
    ensures Count(a + b, c) == Count(a, c) + Count(b, c)
  {
    if a == "" {
      assert a + b == b;
    } else {
      assert (a + b)[1..] == a[1..] + b;
      CountConcat(a[1..], b, c);
    }
  }

  lemma {:induction false} CountIn(s: string, c: char)
    ensures Count(s, c) > 0 <==> c in s
  {
    if s != "" {
      assert s == [s[0]] + s[1..];
      CountIn(s[1..], c);
    }
  }

  lemma {:induction false} TrimLeftCounts(s: string, c: char)
    requires !IsSpace(c)
    ensures Count(TrimLeft(s), c) == Count(s, c)
  {
    hide IsSpace;
    if s != "" && IsSpace(s[0]) {
      TrimLeftCounts(s[1..], c);
    }
  }

  lemma {:induction false} TrimRightCounts(s: string, c: char)
    requires !IsSpace(c)
    ensures Count(TrimRight(s), c) == Count(s, c)
  {
    hide IsSpace;
    if s != "" && IsSpace(s[|s| - 1]) {
      var n := |s| - 1;
      TrimRightCounts(s[..n], c);
      CountConcat(s[..n], [s[n]], c);
      assert s == s[..n] + [s[n]];
    }
  }

  lemma {:induction false} TrimCounts(s: string, c: char)
    requires !IsSpace(c)
    ensures Count(Trim(s), c) == Count(s, c)
  {
    hide IsSpace, TrimLeft, TrimRight;
    TrimLeftCounts(s, c);
    TrimRightCounts(TrimLeft(s), c);
  }

  /** Escaping doubles backslashes, and adds one for each quote. */
  lemma {:induction false} EscapeCounts(s: string)
    ensures Count(Escape(s), '\\') == 2 * Count(s, '\\') + Count(s, '"') && Count(Escape(s), '"') == Count(s, '"')
  {
    if s != "" {
      var first := if s[0] == '"' || s[0] == '\\' then ['\\', s[0]] else [s[0]];
      EscapeCounts(s[1..]);
      CountConcat(first, Escape(s[1..]), '\\');
      CountConcat(first, Escape(s[1..]), '"');
      assert first[1..] == [] || (first[1..] == [s[0]] && first[1..][1..] == []);
    }
  }

  lemma {:induction false} PlainIsUnescaped(s: string)
    requires '"' !in s && '\\' !in s
    ensures Escape(s) == s
  {
    if s != "" {
      assert s == [s[0]] + s[1..];
      PlainIsUnescaped(s[1..]);
    }
  }

  /** What has been read of a payload stays. */
  lemma {:induction false} ReadKeeps(text: string, pos: nat, payload: Payload)
    requires pos <= |text| && ReadFrom(text, pos, payload).Ok?
    ensures payload.entries <= ReadFrom(text, pos, payload).value.entries
    decreases |text| - pos
  {
    hide Blanks, Trim, ReadQuoted, SlashFlaw, Keyword, BareEnd, Separated, IsSpace, IsMark;
    var next := Blanks(text, pos);
    if next < |text| {
      if IsMark(text[next]) {
        ReadKeeps(text, next + 1, payload);
      } else {
        BlanksStop(text, pos);
        var read := ReadEntry(text, next, payload).value;
        ReadKeeps(text, read.next, read.payload);
      }
    }
  }

  /** A payload that begins with a quote has the text up to the next quote as its first path. */
  lemma {:induction false} FirstPath(text: string)
    requires text != "" && text[0] == '"' && Read(text).Ok?
    ensures FindFrom(text, 1, '"').Some?
    ensures Read(text).value.entries[0] == Entry(Trim(text[1..FindFrom(text, 1, '"').value]), false)
  {
    hide Blanks, Trim, SlashFlaw, Keyword, BareEnd, Separated, FindFrom, Starts;
    StartsPlain(text, 0);
    NotKeyword(text, 0);
    FirstPathRead(text);
    var read := ReadEntry(text, 0, Payload([], None)).value;
    ReadFromStart(text, 0, Payload([], None), read.next, read.payload);
    ReadKeeps(text, read.next, read.payload);
  }

  lemma {:induction false} FirstPathRead(text: string)
    requires text != "" && text[0] == '"' && Starts(text, 0) && Keyword(text, 0, "version").None? && Read(text).Ok?
    ensures ReadEntry(text, 0, Payload([], None)).Ok? && FindFrom(text, 1, '"').Some?
    ensures ReadEntry(text, 0, Payload([], None)).value.payload.entries == [Entry(Trim(text[1..FindFrom(text, 1, '"').value]), false)]
  {
    hide Blanks, Trim, SlashFlaw, Keyword, BareEnd, Separated, FindFrom;
    assert ReadFrom(text, 0, Payload([], None)).Ok?;
    assert ReadEntry(text, 0, Payload([], None)).Ok?;
  }

  lemma {:induction false} FoundFirst(text: string, pos: nat, c: char)
    requires FindFrom(text, pos, c).Some?
    ensures c !in text[pos..FindFrom(text, pos, c).value]
    decreases |text| - pos
  {
    var end := FindFrom(text, pos, c).value;
    if text[pos] != c {
      FoundFirst(text, pos + 1, c);
      assert text[pos..end] == [text[pos]] + text[pos + 1..end];
    }
  }

  lemma {:induction false} NoSpaces()
    ensures !IsSpace('"') && !IsSpace('\\')
  {
  }

  /** A path in double quotes, escaped as in other literals, is read back exactly if it contains
      neither a quote nor a backslash: the reader does not know about escapes. */
  lemma {:induction false} EscapedPathIsRead(path: string)
    ensures Read(QuotedText('"', Escape(path))) == Ok(Payload([Entry(Trim(path), false)], None))
            <==> '"' !in path && '\\' !in path
  {
    hide Read, Trim, Escape, Scans, FindFrom, IsSpace, GroupsOk, PayloadText;
    var text := QuotedText('"', Escape(path));
    NoSpaces();
    if '"' !in path && '\\' !in path {
      PlainIsUnescaped(path);
      EscapedGroupText(path);
      NoSepsOk();
      PayloadIsRead([], EscapedGroup(path));
      EscapedGathers(path);
    } else if Read(text) == Ok(Payload([Entry(Trim(path), false)], None)) {
      FirstPath(text);
      var end := FindFrom(text, 1, '"').value;
      var value := text[1..end];
      FoundFirst(text, 1, '"');
      assert Trim(value) == Trim(path);
      TrimCounts(value, '"');
      TrimCounts(path, '"');
      CountIn(value, '"');
      CountIn(path, '"');
      assert '"' !in path;
      EscapeCounts(path);
      CountIn(Escape(path), '"');
      WholeIsRead(path);
      TrimCounts(value, '\\');
      TrimCounts(path, '\\');
      CountIn(path, '\\');
    }
  }

  lemma {:induction false} EscapedGathers(path: string)
    requires Escape(path) == path
    ensures Gather(EscapedGroup(path), Payload([], None)) == Payload([Entry(Trim(path), false)], None)
    ensures OneVersion(EscapedGroup(path), Payload([], None))
  {
    hide Escape, Trim;
    var g := EscapedGroup(path);
    assert g[1..] == [] && [] + [Entry(Trim(path), false)] == [Entry(Trim(path), false)];
  }

  lemma {:induction false} WholeIsRead(path: string)
    requires '"' !in Escape(path)
    ensures var text := QuotedText('"', Escape(path));
            FindFrom(text, 1, '"').Some? && text[1..FindFrom(text, 1, '"').value] == Escape(path)
  {
    hide FindFrom, Escape;
    var text := QuotedText('"', Escape(path));
    assert text[1..1 + |Escape(path) + ['"']|] == Escape(path) + ['"'];
    ReadsExactly(text, 1, '"', Escape(path));
    assert text[1..1 + |Escape(path)|] == Escape(path);
  }

  /** The first path of a payload of this shape, and what stands behind it. */
  lemma {:induction false} QuotedStart(text: string, value: string, rest: string)
    requires '"' !in value && text == ['"'] + (value + ['"']) + rest
    ensures Starts(text, 0) && Keyword(text, 0, "version").None?
    ensures ReadQuoted(text, 0) == Ok(Reading(value, |value| + 2))
  {
    hide Blanks, Keyword, FindFrom;
    StartsPlain(text, 0);
    NotKeyword(text, 0);
    assert text[0..|value| + 2] == QuotedText('"', value);
    QuotedRead(text, 0, '"', value);
  }

  lemma {:induction false} EscapeOne(c: char, rest: string)
    ensures Escape([c] + rest) == (if c == '"' || c == '\\' then ['\\', c] else [c]) + Escape(rest)
  {
    assert ([c] + rest)[1..] == rest;
  }

  /** The path a"b, escaped, is refused: its first quote ends it for the reader. */
  lemma {:induction false} QuoteInPathIsRefused()
    ensures Read(QuotedText('"', Escape(['a', '"', 'b']))) == Fail(TextAfterPath)
  {
    hide Blanks, Keyword, ReadQuoted, Trim, Starts;
    EscapeOne('a', ['"', 'b']);
    EscapeOne('"', ['b']);
    EscapeOne('b', []);
    assert ['a'] + ['"', 'b'] == ['a', '"', 'b'] && ['"'] + ['b'] == ['"', 'b'] && ['b'] + [] == ['b'];
    var text := QuotedText('"', Escape(['a', '"', 'b']));
    assert text == ['"'] + (['a', '\\'] + ['"']) + ['b', '"'];
    QuotedStart(text, ['a', '\\'], ['b', '"']);
    assert !Separated(text, 4);
    QuotedFails(text);
    StartFails(text, TextAfterPath);
  }

  lemma {:induction false} QuotedFails(text: string)
    requires Starts(text, 0) && Keyword(text, 0, "version").None? && text[0] == '"'
    requires ReadQuoted(text, 0).Ok? && !Separated(text, ReadQuoted(text, 0).value.next)
    ensures ReadEntry(text, 0, Payload([], None)) == Fail(TextAfterPath)
  {
    hide Blanks, Keyword, ReadQuoted, Trim, Separated, IsSpace;
  }

  lemma {:induction false} StartFails(text: string, e: Error)
    requires Starts(text, 0) && ReadEntry(text, 0, Payload([], None)) == Fail(e)
    ensures Read(text) == Fail(e)
  {
    hide Blanks, ReadEntry;
  }

  lemma {:induction false} QuotedEntry(text: string, value: string)
    requires Starts(text, 0) && Keyword(text, 0, "version").None? && text[0] == '"' && IsTrimmed(value)
    requires ReadQuoted(text, 0) == Ok(Reading(value, |value| + 2)) && Separated(text, |value| + 2)
    ensures ReadEntry(text, 0, Payload([], None)) == Ok(Progress(|value| + 2, Payload([Entry(value, false)], None)))
  {
    hide Blanks, Keyword, ReadQuoted, Trim, Separated, IsSpace;
    TrimmedStays(value);
    assert [] + [Entry(value, false)] == [Entry(value, false)];
  }

  /** A comment that runs to the end hides whatever follows a quoted path. */
  lemma {:induction false} CommentHides(text: string, value: string, rest: string)
    requires '"' !in value && IsTrimmed(value) && text == ['"'] + (value + ['"']) + rest && '\n' !in text
    requires |rest| >= 3 && rest[0] == ' ' && rest[1] == '/' && rest[2] == '/'
    ensures Read(text) == Ok(Payload([Entry(value, false)], None))
  {
    hide Blanks, Keyword, ReadQuoted, Trim, Starts, ReadFrom, ReadEntry;
    var n := |value| + 2;
    var payload := Payload([Entry(value, false)], None);
    assert text[n] == rest[0] && text[n + 1] == rest[1] && text[n + 2] == rest[2];
    QuotedStart(text, value, rest);
    QuotedEntry(text, value);
    ReadFromStart(text, 0, Payload([], None), n, payload);
    CommentToEnd(text, n);
    ReadFromBlanks(text, n, |text|, payload);
    NothingRead(text, payload);
  }

  /** The path a" //b, escaped, is silently read as another: what follows its first quote is
      taken for a comment, and the backslash of the escape for a part of the path. */
  lemma {:induction false} QuoteInPathIsMisread()
    ensures Read(QuotedText('"', Escape(['a', '"', ' ', '/', '/', 'b']))) == Ok(Payload([Entry(['a', '\\'], false)], None))
  {
    hide Read, Escape, IsTrimmed;
    var tail: string := [' ', '/', '/', 'b'];
    EscapeOne('a', ['"'] + tail);
    EscapeOne('"', tail);
    PlainIsUnescaped(tail);
    assert ['a'] + (['"'] + tail) == ['a', '"', ' ', '/', '/', 'b'];
    var text := QuotedText('"', Escape(['a', '"', ' ', '/', '/', 'b']));
    assert text == ['"'] + (['a', '\\'] + ['"']) + (tail + ['"']);
    PathIsTrimmed();
    CommentHides(text, ['a', '\\'], tail + ['"']);
  }

  lemma {:induction false} PathIsTrimmed()
    ensures IsTrimmed(['a', '\\'])
  {
  }

  lemma {:induction false} CommentToEnd(text: string, pos: nat)
    requires pos + 3 <= |text| && text[pos] == ' ' && text[pos + 1] == '/' && text[pos + 2] == '/' && '\n' !in text
    ensures Blanks(text, pos) == Blanks(text, |text|)
  {
    hide Blanks;
    SpaceTaken(text, pos);
    CommentTaken(text, pos + 1);
  }
}
