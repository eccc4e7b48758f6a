/** Which error a payload that cannot be read is refused with. */
module ImportRefusals {
  import opened Ir
  import opened Texts
  import opened ImportScan
  import opened ImportPayload
  import opened ImportGrammar
  import opened ImportReading

  // ----- what stands before the error -----

  /** Entries each of which ends in front of a space, a comma or a semicolon. */
  predicate Closed(groups: seq<Group>) { GroupsOk(groups) && forall g :: g in groups ==> g.seps != [] }

  lemma {:induction false} ClosedTail(groups: seq<Group>)
    requires groups != [] && Closed(groups)
    ensures ItemOk(groups[0].item) && SepsOk(groups[0].seps) && groups[0].seps != [] && Parts(groups[0].seps[0])
    ensures Closed(groups[1..])
  {
    hide ItemOk, SepsOk;
    assert groups[0] in groups && forall g :: g in groups[1..] ==> g in groups;
  }

  /** Whatever follows them, closed entries are read first. */
  lemma {:induction false} ClosedRead(text: string, pos: nat, groups: seq<Group>, payload: Payload)
    requires Closed(groups) && AllRead(groups) && OneVersion(groups, payload) && At(text, pos, GroupsText(groups))
    ensures pos + |GroupsText(groups)| <= |text|
    ensures ReadFrom(text, pos, payload) == ReadFrom(text, pos + |GroupsText(groups)|, Gather(groups, payload))
    decreases |groups|
  {
    hide At, ItemText, SepsText, ItemOk, ItemReads, IsSpace, IsMark, ReadFrom, ReadEntry, With, Starts, Closed;
    if groups == [] {
      AtEmpty(text, pos);
    } else {
      ClosedTail(groups);
      var g := groups[0];
      var rest := GroupsText(groups[1..]);
      assert GroupsText(groups) == ItemText(g.item) + (SepsText(g.seps) + rest);
      AtParts(text, pos, ItemText(g.item), SepsText(g.seps) + rest);
      var mid := pos + |ItemText(g.item)|;
      AtParts(text, mid, SepsText(g.seps), rest);
      PartedBySeps(text, mid, g.seps);
      SeparatedHere(text, mid);
      ItemRead(text, pos, g.item, payload);
      ReadFromStart(text, pos, payload, mid, With(payload, g.item));
      SepsRead(text, mid, g.seps, With(payload, g.item));
      ClosedRead(text, mid + |SepsText(g.seps)|, groups[1..], With(payload, g.item));
    }
  }

  lemma {:induction false} SeparatedHere(text: string, pos: nat)
    requires pos < |text| && (IsSpace(text[pos]) || IsMark(text[pos]))
    ensures Separated(text, pos)
  {
  }

  /** Entries that can be read, and then `wrong` up to the end. */
  predicate GoesWrong(lead: seq<Sep>, groups: seq<Group>, wrong: string) {
    SepsOk(lead) && Closed(groups) && AllRead(groups) && OneVersion(groups, Payload([], None)) && wrong != ""
  }

  function WrongText(lead: seq<Sep>, groups: seq<Group>, wrong: string): string { SepsText(lead) + (GroupsText(groups) + wrong) }

  /** The place where it goes wrong. */
  function WrongAt(lead: seq<Sep>, groups: seq<Group>): nat { |SepsText(lead)| + |GroupsText(groups)| }

  lemma {:induction false} WrongParted(lead: seq<Sep>, groups: seq<Group>, wrong: string)
    ensures var text := WrongText(lead, groups, wrong);
            && At(text, 0, SepsText(lead)) && At(text, |SepsText(lead)|, GroupsText(groups)) && At(text, WrongAt(lead, groups), wrong)
            && |text| == WrongAt(lead, groups) + |wrong|
  {
    hide At, SepsText, GroupsText;
    var text := WrongText(lead, groups, wrong);
    WholeAt(text);
    AtParts(text, 0, SepsText(lead), GroupsText(groups) + wrong);
    AtParts(text, |SepsText(lead)|, GroupsText(groups), wrong);
  }

  lemma {:induction false} WholeAt(text: string)
    ensures At(text, 0, text)
  {
    assert text[0..|text|] == text;
  }

  lemma {:induction false} WrongIsReported(lead: seq<Sep>, groups: seq<Group>, wrong: string, e: Error)
    requires GoesWrong(lead, groups, wrong)
    requires var text := WrongText(lead, groups, wrong); var pos := WrongAt(lead, groups);
             Starts(text, pos) && ReadEntry(text, pos, Gather(groups, Payload([], None))) == Fail(e)
    ensures Read(WrongText(lead, groups, wrong)) == Fail(e)
  {
    hide At, SepsText, GroupsText, ReadEntry, Blanks, Closed, AllRead, OneVersion, SepsOk, WrongText, Gather, IsSpace, IsMark;
    var text := WrongText(lead, groups, wrong);
    WrongParted(lead, groups, wrong);
    SepsRead(text, 0, lead, Payload([], None));
    ClosedRead(text, |SepsText(lead)|, groups, Payload([], None));
  }

  // ----- quoted paths -----

  lemma {:induction false} OpenQuoted(text: string, pos: nat, quote: char, rest: string)
    requires IsQuote(quote) && quote !in rest && At(text, pos, [quote] + rest) && pos + 1 + |rest| == |text|
    ensures ReadQuoted(text, pos) == Fail(OpenQuote) && pos < |text| && text[pos] == quote
  {
    hide At, FindFrom;
    AtParts(text, pos, [quote], rest);
    AtOne(text, pos, quote);
    AtIs(text, pos + 1, rest);
    assert text[pos + 1..] == rest;
    NotFound(text, pos + 1, quote);
  }

  lemma {:induction false} NotFound(text: string, pos: nat, c: char)
    requires pos <= |text| && c !in text[pos..]
    ensures FindFrom(text, pos, c).None?
    decreases |text| - pos
  {
    if pos < |text| {
      assert text[pos] == text[pos..][0] && forall d :: d in text[pos + 1..] ==> d in text[pos..];
      NotFound(text, pos + 1, c);
    }
  }

  /** A quote that is not closed. */
  lemma {:induction false} OpenQuoteIsRefused(lead: seq<Sep>, groups: seq<Group>, quote: char, rest: string)
    requires GoesWrong(lead, groups, [quote] + rest) && IsQuote(quote) && quote !in rest
    ensures Read(WrongText(lead, groups, [quote] + rest)) == Fail(OpenQuote)
  {
    hide GoesWrong, WrongText, WrongAt, ReadQuoted, Blanks, Keyword, Gather, At;
    var text, pos := WrongText(lead, groups, [quote] + rest), WrongAt(lead, groups);
    WrongParted(lead, groups, [quote] + rest);
    OpenQuoted(text, pos, quote, rest);
    StartsPlain(text, pos);
    NotKeyword(text, pos);
    WrongIsReported(lead, groups, [quote] + rest, OpenQuote);
  }

  /** A path with more text right behind its quote. */
  lemma {:induction false} TextAfterPathIsRefused(lead: seq<Sep>, groups: seq<Group>, quote: char, path: string, c: char, rest: string)
    requires var wrong := QuotedText(quote, path) + ([c] + rest); GoesWrong(lead, groups, wrong)
    requires IsQuote(quote) && quote !in path && !IsSpace(c) && !IsMark(c)
    ensures Read(WrongText(lead, groups, QuotedText(quote, path) + ([c] + rest))) == Fail(TextAfterPath)
  {
    hide GoesWrong, WrongText, WrongAt, ReadQuoted, Blanks, Keyword, Gather, At, IsSpace, IsMark, Trim, QuotedText;
    var wrong := QuotedText(quote, path) + ([c] + rest);
    var text, pos := WrongText(lead, groups, wrong), WrongAt(lead, groups);
    WrongParted(lead, groups, wrong);
    AtParts(text, pos, QuotedText(quote, path), [c] + rest);
    QuotedRead(text, pos, quote, path);
    QuotedSize(quote, path);
    AtParts(text, pos + |path| + 2, [c], rest);
    AtOne(text, pos + |path| + 2, c);
    QuoteStarts(text, pos);
    NotKeyword(text, pos);
    WrongIsReported(lead, groups, wrong, TextAfterPath);
  }

  lemma {:induction false} QuotedSize(quote: char, s: string)
    ensures |QuotedText(quote, s)| == |s| + 2
  {
  }

  lemma {:induction false} QuoteStarts(text: string, pos: nat)
    requires pos < |text| && IsQuote(text[pos])
    ensures Starts(text, pos) && text[pos] != 'v'
  {
    hide Blanks;
    StartsPlain(text, pos);
  }

  // ----- bare paths -----

  /** Text that ends an entry: none, or a space or mark first. */
  predicate Ends(rest: string) { rest == "" || IsSpace(rest[0]) || IsMark(rest[0]) }

  /** Characters of a path without quotes. */
  predicate IsBare(path: string) {
    path != "" && forall j :: 0 <= j < |path| ==> !IsSpace(path[j]) && !IsMark(path[j])
  }

  lemma {:induction false} BareStops(text: string, pos: nat, path: string, rest: string)
    requires IsBare(path) && Ends(rest) && At(text, pos, path + rest) && pos + |path + rest| == |text|
    ensures pos <= |text| && BareEnd(text, pos) == pos + |path| && text[pos..pos + |path|] == path
    ensures Trim(path) == path
  {
    hide At, IsSpace, IsMark, Trim;
    AtParts(text, pos, path, rest);
    AtIs(text, pos, path);
    if rest != "" {
      AtIndex(text, pos + |path|, rest, 0);
    }
    forall j | pos <= j < pos + |path|
      ensures !IsSpace(text[j]) && !IsMark(text[j])
    {
      AtIndex(text, pos, path, j - pos);
    }
    BareEndsAt(text, pos, pos + |path|);
    TrimmedStays(path);
  }

  /** The word is no version attribute, no quote and no comment. */
  predicate IsPlainWord(path: string) {
    && IsBare(path) && !IsQuote(path[0]) && (path[0] == '/' ==> |path| > 1 && path[1] != '/' && path[1] != '*')
    && ("version" <= path ==> |path| > 7 && IsBoundary(path[7]))
  }

  lemma {:induction false} VersionHasNoMark(k: nat)
    requires k < 7
    ensures !IsSpace("version"[k]) && !IsMark("version"[k])
  {
  }

  lemma {:induction false} PlainWordIsNoKeyword(text: string, pos: nat, path: string, rest: string)
    requires IsPlainWord(path) && Ends(rest) && At(text, pos, path + rest) && pos + |path + rest| == |text|
    ensures Keyword(text, pos, "version").None?
  {
    hide IsSpace, IsMark, IsBoundary;
    AtIs(text, pos, path + rest);
    if At(text, pos, "version") {
      if |path| < 7 {
        AtIndex(text, pos, "version", |path|);
        AtIndex(text, pos, path + rest, |path|);
        VersionHasNoMark(|path|);
      } else {
        AtParts(text, pos, path, rest);
        forall k | 0 <= k < 7
          ensures path[k] == "version"[k]
        {
          AtIndex(text, pos, "version", k);
          AtIndex(text, pos, path, k);
        }
        if |path| > 7 {
          AtIndex(text, pos, path, 7);
        }
      }
    }
  }

  lemma {:induction false} PlainWordStarts(text: string, pos: nat, path: string, rest: string)
    requires IsPlainWord(path) && Ends(rest) && At(text, pos, path + rest) && pos + |path + rest| == |text|
    ensures Starts(text, pos) && Keyword(text, pos, "version").None? && !IsQuote(text[pos])
  {
    hide Blanks, Keyword, At, IsSpace, IsMark;
    PlainWordIsNoKeyword(text, pos, path, rest);
    AtParts(text, pos, path, rest);
    AtIndex(text, pos, path, 0);
    if |path| > 1 {
      AtIndex(text, pos, path, 1);
    }
    StartsPlain(text, pos);
  }

  /** A path without quotes has to begin with a slash, and to be a slash path. */
  lemma {:induction false} BadBarePathIsRefused(lead: seq<Sep>, groups: seq<Group>, path: string, rest: string)
    requires GoesWrong(lead, groups, path + rest) && IsPlainWord(path) && Ends(rest)
    ensures path[0] != '/' ==> Read(WrongText(lead, groups, path + rest)) == Fail(NoSlash)
    ensures path[0] == '/' && SlashFlaw(path).Some? ==> Read(WrongText(lead, groups, path + rest)) == Fail(SlashFlaw(path).value)
  {
    hide GoesWrong, WrongText, WrongAt, Blanks, Keyword, Gather, At, SlashFlaw, Trim, BareEnd, Ends, IsSpace, IsMark;
    var text, pos := WrongText(lead, groups, path + rest), WrongAt(lead, groups);
    WrongParted(lead, groups, path + rest);
    BareStops(text, pos, path, rest);
    PlainWordStarts(text, pos, path, rest);
    if path[0] != '/' {
      WrongIsReported(lead, groups, path + rest, NoSlash);
    } else if SlashFlaw(path).Some? {
      WrongIsReported(lead, groups, path + rest, SlashFlaw(path).value);
    }
  }

  // ----- versions -----

  /** The keyword of a version, and gaps behind it that begin with a space if there are any. */
  function VersionHead(gaps: seq<Gap>): string { "version" + GapsText(gaps) }

  predicate HeadOk(gaps: seq<Gap>) { GapsOk(gaps) && (gaps != [] ==> gaps[0].Space?) }

  lemma {:induction false} VersionStarts(text: string, pos: nat, gaps: seq<Gap>, c: char, rest: string)
    requires HeadOk(gaps) && At(text, pos, VersionHead(gaps) + ([c] + rest))
    requires !IsSpace(c) && c != '/' && (gaps == [] ==> !IsBoundary(c))
    ensures Starts(text, pos) && Keyword(text, pos, "version") == Some(pos + 7)
    ensures var b := pos + 7 + |GapsText(gaps)|; b < |text| && text[b] == c && Blanks(text, pos + 7) == b && At(text, b + 1, rest)
  {
    hide At, GapsText, Blanks, IsSpace, IsBoundary, GapsOk, IsMark;
    assert VersionHead(gaps) + ([c] + rest) == "version" + (GapsText(gaps) + ([c] + rest));
    AtParts(text, pos, "version", GapsText(gaps) + ([c] + rest));
    AtParts(text, pos + 7, GapsText(gaps), [c] + rest);
    var b := pos + 7 + |GapsText(gaps)|;
    AtParts(text, b, [c], rest);
    AtOne(text, b, c);
    AtIndex(text, pos, "version", 0);
    VIsNoMark();
    StartsPlain(text, pos);
    GapsTaken(text, pos + 7, gaps);
    BlanksComment(text, b);
    if gaps == [] {
      NoGaps();
    } else {
      FirstGap(text, pos + 7, gaps);
    }
    KeywordIs(text, pos);
  }

  lemma {:induction false} KeywordIs(text: string, pos: nat)
    requires At(text, pos, "version") && (pos + 7 < |text| ==> !IsBoundary(text[pos + 7]))
    ensures Keyword(text, pos, "version") == Some(pos + 7)
  {
  }

  /** What a version is refused for behind its equals sign. */
  function ValueFlaw(text: string, pos: nat): Option<Error>
    requires pos <= |text|
  {
    match ReadQuoted(text, pos)
    case Fail(e) => Some(e)
    case Ok(value) => if Separated(text, value.next) then None else Some(TextAfterVersion)
  }

  lemma {:induction false} EqualsIsPlain()
    ensures !IsSpace('=') && !IsBoundary('=')
  {
  }

  lemma {:induction false} EntryNeedsEquals(text: string, pos: nat, payload: Payload)
    requires Starts(text, pos) && Keyword(text, pos, "version").Some?
    ensures var b := Blanks(text, Keyword(text, pos, "version").value);
            && (b == |text| || text[b] != '=' ==> ReadEntry(text, pos, payload) == Fail(MissingEquals))
            && (b < |text| && text[b] == '=' && payload.version.Some? ==> ReadEntry(text, pos, payload) == Fail(DuplicateVersion))
            && (b < |text| && text[b] == '=' && payload.version.None? && ValueFlaw(text, Blanks(text, b + 1)).Some? ==>
                  ReadEntry(text, pos, payload) == Fail(ValueFlaw(text, Blanks(text, b + 1)).value))
  {
    hide Blanks, Keyword, ReadQuoted, Separated, Trim;
  }

  /** Where a version attribute goes wrong: behind its keyword and its gaps. */
  lemma {:induction false} VersionGoesWrong(lead: seq<Sep>, groups: seq<Group>, gaps: seq<Gap>, c: char, rest: string)
    requires HeadOk(gaps) && !IsSpace(c) && c != '/' && (gaps == [] ==> !IsBoundary(c))
    ensures var text := WrongText(lead, groups, VersionHead(gaps) + ([c] + rest)); var pos := WrongAt(lead, groups);
            var b := pos + 7 + |GapsText(gaps)|;
            && Starts(text, pos) && Keyword(text, pos, "version") == Some(pos + 7) && b < |text| && Blanks(text, pos + 7) == b
            && text[b] == c && At(text, b + 1, rest) && b + 1 + |rest| == |text|
  {
    hide Starts, WrongText, WrongAt, Blanks, Keyword, At, VersionHead, HeadOk, GapsText, IsSpace, IsBoundary;
    var wrong := VersionHead(gaps) + ([c] + rest);
    WrongParted(lead, groups, wrong);
    VersionStarts(WrongText(lead, groups, wrong), WrongAt(lead, groups), gaps, c, rest);
    VersionHeadSize(gaps);
  }

  /** A version needs an equals sign. */
  lemma {:induction false} MissingEqualsIsRefused(lead: seq<Sep>, groups: seq<Group>, gaps: seq<Gap>, c: char, rest: string)
    requires GoesWrong(lead, groups, VersionHead(gaps) + ([c] + rest)) && HeadOk(gaps)
    requires !IsSpace(c) && c != '/' && c != '=' && (gaps == [] ==> !IsBoundary(c))
    ensures Read(WrongText(lead, groups, VersionHead(gaps) + ([c] + rest))) == Fail(MissingEquals)
  {
    hide Starts, ReadEntry, ValueFlaw, GoesWrong, WrongText, WrongAt, Blanks, Keyword, Gather, At, VersionHead, HeadOk, GapsText,
         IsSpace, IsBoundary, Read;
    var wrong := VersionHead(gaps) + ([c] + rest);
    VersionGoesWrong(lead, groups, gaps, c, rest);
    EntryNeedsEquals(WrongText(lead, groups, wrong), WrongAt(lead, groups), Gather(groups, Payload([], None)));
    WrongIsReported(lead, groups, wrong, MissingEquals);
  }

  /** A second version is refused, whatever its value is. */
  lemma {:induction false} SecondVersionIsRefused(lead: seq<Sep>, groups: seq<Group>, gaps: seq<Gap>, rest: string)
    requires GoesWrong(lead, groups, VersionHead(gaps) + (['='] + rest)) && HeadOk(gaps)
    requires Gather(groups, Payload([], None)).version.Some?
    ensures Read(WrongText(lead, groups, VersionHead(gaps) + (['='] + rest))) == Fail(DuplicateVersion)
  {
    hide Starts, ReadEntry, ValueFlaw, GoesWrong, WrongText, WrongAt, Blanks, Keyword, Gather, At, VersionHead, HeadOk, GapsText,
         IsSpace, IsBoundary, Read;
    var wrong := VersionHead(gaps) + (['='] + rest);
    EqualsIsPlain();
    VersionGoesWrong(lead, groups, gaps, '=', rest);
    EntryNeedsEquals(WrongText(lead, groups, wrong), WrongAt(lead, groups), Gather(groups, Payload([], None)));
    WrongIsReported(lead, groups, wrong, DuplicateVersion);
  }

  /** Where the value of a version begins. */
  lemma {:induction false} ValueStarts(text: string, b: nat, more: seq<Gap>, c: char, rest: string)
    requires GapsOk(more) && At(text, b + 1, GapsText(more) + ([c] + rest)) && b + 1 + |GapsText(more) + ([c] + rest)| == |text|
    requires !IsSpace(c) && c != '/'
    ensures var value := |text| - |rest| - 1;
            && 0 <= value < |text| && text[value] == c && At(text, value, [c] + rest) && Blanks(text, b + 1) == value
  {
    hide Blanks, At, GapsText, IsSpace, GapsOk;
    AtParts(text, b + 1, GapsText(more), [c] + rest);
    GapsTaken(text, b + 1, more);
    var value := b + 1 + |GapsText(more)|;
    AtParts(text, value, [c], rest);
    AtOne(text, value, c);
    BlanksComment(text, value);
  }

  lemma {:induction false} BadValueIsRefused(lead: seq<Sep>, groups: seq<Group>, gaps: seq<Gap>, more: seq<Gap>, c: char, rest: string)
    requires GoesWrong(lead, groups, VersionHead(gaps) + (['='] + (GapsText(more) + ([c] + rest)))) && HeadOk(gaps) && GapsOk(more)
    requires Gather(groups, Payload([], None)).version.None? && !IsSpace(c) && c != '/'
    ensures var wrong := VersionHead(gaps) + (['='] + (GapsText(more) + ([c] + rest)));
            var text := WrongText(lead, groups, wrong);
            var value := |text| - |rest| - 1;
            && 0 <= value < |text| && text[value] == c && At(text, value, [c] + rest)
            && (ValueFlaw(text, value).Some? ==> Read(text) == Fail(ValueFlaw(text, value).value))
  {
    hide Starts, ReadEntry, ValueFlaw, GoesWrong, WrongText, WrongAt, Blanks, Keyword, Gather, At, VersionHead, HeadOk, GapsText,
         IsSpace, IsBoundary, Read, GapsOk;
    var after := GapsText(more) + ([c] + rest);
    var wrong := VersionHead(gaps) + (['='] + after);
    var text, pos := WrongText(lead, groups, wrong), WrongAt(lead, groups);
    EqualsIsPlain();
    VersionGoesWrong(lead, groups, gaps, '=', after);
    ValueStarts(text, pos + 7 + |GapsText(gaps)|, more, c, rest);
    var value := |text| - |rest| - 1;
    if ValueFlaw(text, value).Some? {
      EntryNeedsEquals(text, pos, Gather(groups, Payload([], None)));
      WrongIsReported(lead, groups, wrong, ValueFlaw(text, value).value);
    }
  }

  lemma {:induction false} VersionHeadSize(gaps: seq<Gap>)
    ensures |VersionHead(gaps)| == 7 + |GapsText(gaps)|
  {
    hide GapsText;
  }

  /** The value of a version has to be quoted, closed, and followed by a space or a mark. */
  lemma {:induction false} UnquotedVersionIsRefused(lead: seq<Sep>, groups: seq<Group>, gaps: seq<Gap>, more: seq<Gap>, c: char, rest: string)
    requires GoesWrong(lead, groups, VersionHead(gaps) + (['='] + (GapsText(more) + ([c] + rest)))) && HeadOk(gaps) && GapsOk(more)
    requires Gather(groups, Payload([], None)).version.None? && !IsSpace(c) && c != '/' && !IsQuote(c)
    ensures Read(WrongText(lead, groups, VersionHead(gaps) + (['='] + (GapsText(more) + ([c] + rest))))) == Fail(NotQuoted)
  {
    hide GoesWrong, WrongText, Gather, At, VersionHead, HeadOk, GapsText, GapsOk, FindFrom, IsSpace;
    BadValueIsRefused(lead, groups, gaps, more, c, rest);
  }

  lemma {:induction false} OpenVersionIsRefused(lead: seq<Sep>, groups: seq<Group>, gaps: seq<Gap>, more: seq<Gap>, quote: char, rest: string)
    requires GoesWrong(lead, groups, VersionHead(gaps) + (['='] + (GapsText(more) + ([quote] + rest)))) && HeadOk(gaps) && GapsOk(more)
    requires Gather(groups, Payload([], None)).version.None? && IsQuote(quote) && quote !in rest
    ensures Read(WrongText(lead, groups, VersionHead(gaps) + (['='] + (GapsText(more) + ([quote] + rest))))) == Fail(OpenQuote)
  {
    hide GoesWrong, WrongText, Gather, At, VersionHead, HeadOk, GapsText, GapsOk, ReadQuoted;
    BadValueIsRefused(lead, groups, gaps, more, quote, rest);
    var text := WrongText(lead, groups, VersionHead(gaps) + (['='] + (GapsText(more) + ([quote] + rest))));
    OpenQuoted(text, |text| - |rest| - 1, quote, rest);
  }

  lemma {:induction false} TextAfterVersionIsRefused(
    lead: seq<Sep>, groups: seq<Group>, gaps: seq<Gap>, more: seq<Gap>, quote: char, value: string, c: char, rest: string)
    requires var wrong := VersionHead(gaps) + (['='] + (GapsText(more) + ([quote] + (value + [quote] + ([c] + rest)))));
             GoesWrong(lead, groups, wrong)
    requires HeadOk(gaps) && GapsOk(more) && Gather(groups, Payload([], None)).version.None?
    requires IsQuote(quote) && quote !in value && !IsSpace(c) && !IsMark(c)
    ensures Read(WrongText(lead, groups, VersionHead(gaps) + (['='] + (GapsText(more) + ([quote] + (value + [quote] + ([c] + rest)))))))
            == Fail(TextAfterVersion)
  {
    hide GoesWrong, WrongText, Gather, At, VersionHead, HeadOk, GapsText, GapsOk, ReadQuoted, IsSpace, IsMark;
    var tail := value + [quote] + ([c] + rest);
    QuoteIsNoSpace(quote);
    BadValueIsRefused(lead, groups, gaps, more, quote, tail);
    var text := WrongText(lead, groups, VersionHead(gaps) + (['='] + (GapsText(more) + ([quote] + tail))));
    var at := |text| - |tail| - 1;
    assert [quote] + tail == QuotedText(quote, value) + ([c] + rest);
    AtParts(text, at, QuotedText(quote, value), [c] + rest);
    QuotedRead(text, at, quote, value);
    AtParts(text, at + |value| + 2, [c], rest);
    AtOne(text, at + |value| + 2, c);
  }

  lemma {:induction false} QuoteIsNoSpace(quote: char)
    requires IsQuote(quote)
    ensures !IsSpace(quote) && quote != '/'
  {
  }

  /** Nothing but separators is no payload. */
  lemma {:induction false} NothingIsRefused(lead: seq<Sep>)
    requires SepsOk(lead)
    ensures Read(SepsText(lead)) == Fail(NoPath)
  {
    hide SepsText, SepsOk, ReadFrom;
    WholeAt(SepsText(lead));
    SepsRead(SepsText(lead), 0, lead, Payload([], None));
    NothingRead(SepsText(lead), Payload([], None));
  }

  // ----- slash paths -----

  /** The word at `start` is stepped over, or is the flaw. */
  lemma {:induction false} WordStep(text: string, start: nat, end: nat)
    requires start < |text| && SlashFrom(text, start) == end
    ensures IsWord(text[start..end]) && !IsReserved(text[start..end]) && end < |text| ==> WordsFlaw(text, start) == WordsFlaw(text, end + 1)
    ensures !IsWord(text[start..end]) ==> WordsFlaw(text, start) == Some(BadSlashPath(text))
    ensures IsWord(text[start..end]) && IsReserved(text[start..end]) ==> WordsFlaw(text, start) == Some(Reserved(text[start..end]))
  {
    hide IsWord, IsReserved, SlashFrom;
  }

  lemma {:induction false} WordsFlawOn(text: string, start: nat, words: seq<string>, bad: string, rest: string)
    requires start >= 1 && WordsOk(words) && '/' !in bad && (rest == "" || rest[0] == '/')
    requires At(text, start - 1, SlashText(words) + (['/'] + (bad + rest))) && |text| == start - 1 + |SlashText(words) + (['/'] + (bad + rest))|
    requires !IsWord(bad) || IsReserved(bad)
    requires bad + rest != ""
    ensures start < |text| && WordsFlaw(text, start) == Some(if IsWord(bad) then Reserved(bad) else BadSlashPath(text))
    decreases |words|
  {
    hide IsReserved, IsWord, At, SlashFrom, WordsOk, WordsFlaw;
    if words == [] {
      NoWords();
      assert SlashText(words) + (['/'] + (bad + rest)) == ['/'] + (bad + rest);
      AtParts(text, start - 1, ['/'], bad + rest);
      WordIsCut(text, start, bad, rest);
      WordStep(text, start, start + |bad|);
    } else {
      var word := words[0];
      var more := SlashText(words[1..]) + (['/'] + (bad + rest));
      WordsOkHead(words);
      assert SlashText(words) + (['/'] + (bad + rest)) == ['/'] + (word + more);
      AtParts(text, start - 1, ['/'], word + more);
      WordHasNoSlash(word);
      MoreBeginsWithSlash(words[1..], bad + rest);
      WordIsCut(text, start, word, more);
      WordStep(text, start, start + |word|);
      WordsFlawOn(text, start + |word| + 1, words[1..], bad, rest);
    }
  }

  lemma {:induction false} MoreBeginsWithSlash(words: seq<string>, tail: string)
    ensures (SlashText(words) + (['/'] + tail))[0] == '/'
  {
  }

  /** The first word that is reserved, or is no word, decides how a slash path is refused. */
  lemma {:induction false} FirstBadWordDecides(words: seq<string>, bad: string, rest: string)
    requires WordsOk(words) && '/' !in bad && (rest == "" || rest[0] == '/') && bad + rest != "" && (!IsWord(bad) || IsReserved(bad))
    ensures var text := SlashText(words) + (['/'] + (bad + rest));
            SlashFlaw(text) == Some(if IsWord(bad) then Reserved(bad) else BadSlashPath(text))
  {
    hide IsReserved, IsWord, WordsOk, SlashText, WordsFlaw;
    var text := SlashText(words) + (['/'] + (bad + rest));
    WholeAt(text);
    MoreBeginsWithSlash(words, bad + rest);
    WordsFlawOn(text, 1, words, bad, rest);
  }

  /** A slash at the end makes a path bad, unless a word before it is. */
  lemma {:induction false} EndingSlashIsBad(words: seq<string>)
    requires WordsOk(words)
    ensures SlashFlaw(SlashText(words) + ['/']) == Some(BadSlashPath(SlashText(words) + ['/']))
  {
    hide IsReserved, IsWord, WordsOk, WordsFlaw;
    var text := SlashText(words) + ['/'];
    if words != [] {
      WholeAt(text);
      WordsEndSound(text, 1, words);
    }
  }

  lemma {:induction false} WordsEndSound(text: string, start: nat, words: seq<string>)
    requires words != [] && WordsOk(words) && start >= 1 && At(text, start - 1, SlashText(words) + ['/'])
    requires start + |SlashText(words)| == |text|
    ensures start < |text| && WordsFlaw(text, start).None?
    decreases |words|
  {
    hide IsReserved, IsWord, At, SlashFrom, WordsOk;
    var word := words[0];
    var more := SlashText(words[1..]) + ['/'];
    WordsOkHead(words);
    assert SlashText(words) + ['/'] == ['/'] + (word + more);
    AtParts(text, start - 1, ['/'], word + more);
    WordHasNoSlash(word);
    MoreBeginsWithSlash(words[1..], "");
    assert ['/'] + "" == ['/'];
    WordIsCut(text, start, word, more);
    if words[1..] != [] {
      WordsEndSound(text, start + |word| + 1, words[1..]);
    } else {
      NoWords();
    }
  }

  /** The words no path may have. */
  lemma {:induction false} ReservedWords(s: string)
    ensures IsReserved(s) <==>
            s in {"for", "else", "if", "while", "loop", "match", "true", "false", "mut", "return", "import", "include", "namespace"}
  {
  }
}
