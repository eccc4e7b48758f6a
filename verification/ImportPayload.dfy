/** What stands between the brackets of an import directive. */
module ImportPayload {
  import opened Ir
  import opened Texts
  import opened ImportScan
  import opened Decimals

  datatype Error =
    | LegacyInclude | UnterminatedInclude | UnterminatedImport | Unreadable(path: string)
    | MissingEquals | DuplicateVersion | NotQuoted | OpenQuote | TextAfterVersion | TextAfterPath
    | NoSlash | BadSlashPath(path: string) | Reserved(word: string) | NoPath
    | EmptyVersion | BadVersion(text: string) | VersionParts(text: string)
    | NoVersion | VersionMismatch(expected: string, found: string) | Unresolved(message: string)

  datatype Outcome<+T> = Ok(value: T) | Fail(error: Error)

  /** A path and whether it is a slash path, looked up under the import roots. */
  datatype Entry = Entry(path: string, logical: bool)

  datatype Payload = Payload(entries: seq<Entry>, version: Option<string>)

  // ----- slash paths -----

  predicate IsAlpha(c: char) { 'A' <= c <= 'Z' || 'a' <= c <= 'z' }

  predicate IsWordStart(c: char) { IsAlpha(c) || c == '_' }

  predicate IsWordChar(c: char) { IsAlpha(c) || IsDigit(c) || c == '_' }

  predicate IsWord(s: string) { s != "" && IsWordStart(s[0]) && forall c :: c in s[1..] ==> IsWordChar(c) }

  predicate IsReserved(s: string) {
    s in ["mut", "return", "include", "import", "namespace", "true", "false", "if", "else", "loop", "while", "for", "match"]
  }

  function SlashFrom(text: string, pos: nat): (r: nat)
    requires pos <= |text|
    ensures pos <= r <= |text| && (r < |text| ==> text[r] == '/') && forall j :: pos <= j < r ==> text[j] != '/'
    decreases |text| - pos
  {
    if pos == |text| || text[pos] == '/' then pos else SlashFrom(text, pos + 1)
  }

  /** What is wrong with the words of a slash path from `start` on. */
  function WordsFlaw(text: string, start: nat): Option<Error>
    requires start <= |text|
    decreases |text| - start
  {
    if start == |text| then None
    else
      var end := SlashFrom(text, start);
      var word := text[start..end];
      if !IsWord(word) then Some(BadSlashPath(text))
      else if IsReserved(word) then Some(Reserved(word))
      else if end == |text| then None
      else WordsFlaw(text, end + 1)
  }

  /** `validateSlashPath`. */
  function SlashFlaw(text: string): Option<Error> {
    if |text| < 2 || text[0] != '/' then Some(BadSlashPath(text))
    else
      match WordsFlaw(text, 1)
      case Some(e) => Some(e)
      case None => if text[|text| - 1] == '/' then Some(BadSlashPath(text)) else None
  }

  method ValidateSlashPath(text: string) returns (flaw: Option<Error>)
    ensures flaw == SlashFlaw(text)
  {
    if |text| < 2 || text[0] != '/' {
      return Some(BadSlashPath(text));
    }
    var start := 1;
    while start < |text|
      invariant start <= |text| && WordsFlaw(text, 1) == WordsFlaw(text, start)
      decreases |text| - start
    {
      var end := SlashFrom(text, start);
      var word := text[start..end];
      if word == "" || !IsWordStart(word[0]) {
        return Some(BadSlashPath(text));
      }
      for i := 1 to |word|
        invariant forall j :: 1 <= j < i ==> IsWordChar(word[j])
      {
        if !IsWordChar(word[i]) {
          assert word[i] == word[1..][i - 1];
          return Some(BadSlashPath(text));
        }
      }
      if IsReserved(word) {
        return Some(Reserved(word));
      }
      if end == |text| {
        break;
      }
      start := end + 1;
    }
    if text[|text| - 1] == '/' {
      return Some(BadSlashPath(text));
    }
    return None;
  }

  // ----- versions -----

  /** The parts of a version from `i` on, `current` being read. */
  function VersionFrom(text: string, i: nat, current: nat, hasDigit: bool, parts: seq<nat>): Outcome<seq<nat>>
    requires i <= |text|
    decreases |text| - i
  {
    if i == |text| then if hasDigit then Ok(parts + [current]) else Fail(BadVersion(text))
    else if text[i] == '.' then
      if hasDigit then VersionFrom(text, i + 1, 0, false, parts + [current]) else Fail(BadVersion(text))
    else if !IsDigit(text[i]) then Fail(BadVersion(text))
    else VersionFrom(text, i + 1, 10 * current + (text[i] as int - 48), true, parts)
  }

  /** `parseVersionParts`. */
  function ParseVersion(text: string): Outcome<seq<nat>> {
    if text == "" then Fail(EmptyVersion)
    else
      match VersionFrom(text, 0, 0, false, [])
      case Fail(e) => Fail(e)
      case Ok(parts) => if 1 <= |parts| <= 3 then Ok(parts) else Fail(VersionParts(text))
  }

  method ParseVersionParts(text: string) returns (r: Outcome<seq<nat>>)
    ensures r == ParseVersion(text)
  {
    if text == "" {
      return Fail(EmptyVersion);
    }
    var parts: seq<nat> := [];
    var current: nat := 0;
    var hasDigit := false;
    var i := 0;
    while i <= |text|
      invariant i <= |text| + 1
      invariant i <= |text| ==> VersionFrom(text, 0, 0, false, []) == VersionFrom(text, i, current, hasDigit, parts)
      invariant i == |text| + 1 ==> VersionFrom(text, 0, 0, false, []) == Ok(parts)
    {
      if i == |text| || text[i] == '.' {
        if !hasDigit {
          return Fail(BadVersion(text));
        }
        parts := parts + [current];
        current := 0;
        hasDigit := false;
        i := i + 1;
        continue;
      }
      if !IsDigit(text[i]) {
        return Fail(BadVersion(text));
      }
      hasDigit := true;
      current := 10 * current + (text[i] as int - 48);
      i := i + 1;
    }
    if |parts| < 1 || |parts| > 3 {
      return Fail(VersionParts(text));
    }
    return Ok(parts);
  }

  // ----- entries -----

  predicate IsMark(c: char) { c == ',' || c == ';' }

  /** Nothing, a space or a mark follows at `pos`. */
  predicate Separated(text: string, pos: nat) { pos >= |text| || IsSpace(text[pos]) || IsMark(text[pos]) }

  /** Behind the word, if it stands at `pos` as a word of its own. */
  function Keyword(text: string, pos: nat, word: string): (r: Option<nat>)
    ensures r.Some? ==> pos <= r.value <= |text|
  {
    var end := pos + |word|;
    if !At(text, pos, word) || (end < |text| && IsBoundary(text[end])) then None else Some(end)
  }

  datatype Reading = Reading(text: string, next: nat)

  /** `readQuotedString`: up to the next quote of the same kind, whatever stands before it. */
  function ReadQuoted(text: string, pos: nat): (r: Outcome<Reading>)
    ensures r.Ok? ==> pos < r.value.next <= |text|
  {
    if pos >= |text| || !IsQuote(text[pos]) then Fail(NotQuoted)
    else
      match FindFrom(text, pos + 1, text[pos])
      case None => Fail(OpenQuote)
      case Some(end) => Ok(Reading(text[pos + 1..end], end + 1))
  }

  /** Where a path without quotes ends. */
  function BareEnd(text: string, pos: nat): (r: nat)
    requires pos <= |text|
    ensures pos <= r <= |text| && Separated(text, r) && forall j :: pos <= j < r ==> !IsSpace(text[j]) && !IsMark(text[j])
    decreases |text| - pos
  {
    if Separated(text, pos) then pos else BareEnd(text, pos + 1)
  }

  datatype Progress = Progress(next: nat, payload: Payload)

  /** A version attribute whose keyword ends at `pos`. */
  function ReadVersion(text: string, pos: nat, payload: Payload): (r: Outcome<Progress>)
    requires pos <= |text|
    ensures r.Ok? ==> pos < r.value.next <= |text|
  {
    var equals := Blanks(text, pos);
    if equals == |text| || text[equals] != '=' then Fail(MissingEquals)
    else if payload.version.Some? then Fail(DuplicateVersion)
    else
      match ReadQuoted(text, Blanks(text, equals + 1))
      case Fail(e) => Fail(e)
      case Ok(value) =>
        if !Separated(text, value.next) then Fail(TextAfterVersion)
        else Ok(Progress(value.next, payload.(version := Some(Trim(value.text)))))
  }

  /** The entry that begins at `pos`. */
  function ReadEntry(text: string, pos: nat, payload: Payload): (r: Outcome<Progress>)
    requires pos < |text| && !IsSpace(text[pos]) && !IsMark(text[pos])
    ensures r.Ok? ==> pos < r.value.next <= |text|
  {
    match Keyword(text, pos, "version")
    case Some(next) => ReadVersion(text, next, payload)
    case None =>
      if IsQuote(text[pos]) then
        match ReadQuoted(text, pos)
        case Fail(e) => Fail(e)
        case Ok(path) =>
          if !Separated(text, path.next) then Fail(TextAfterPath)
          else Ok(Progress(path.next, payload.(entries := payload.entries + [Entry(Trim(path.text), false)])))
      else
        var end := BareEnd(text, pos);
        var path := Trim(text[pos..end]);
        if path == "" || path[0] != '/' then Fail(NoSlash)
        else
          match SlashFlaw(path)
          case Some(e) => Fail(e)
          case None => Ok(Progress(end, payload.(entries := payload.entries + [Entry(path, true)])))
  }

  /** The payload from `pos` on, behind what has been read of it. */
  function ReadFrom(text: string, pos: nat, payload: Payload): Outcome<Payload>
    requires pos <= |text|
    decreases |text| - pos
  {
    var next := Blanks(text, pos);
    if next == |text| then Ok(payload)
    else if IsMark(text[next]) then ReadFrom(text, next + 1, payload)
    else
      BlanksStop(text, pos);
      match ReadEntry(text, next, payload)
      case Fail(e) => Fail(e)
      case Ok(read) => ReadFrom(text, read.next, read.payload)
  }

  lemma {:induction false} BlanksStop(text: string, pos: nat)
    requires pos <= |text|
    ensures Blanks(text, pos) < |text| ==> !IsSpace(text[Blanks(text, pos)])
    ensures Blanks(text, Blanks(text, pos)) == Blanks(text, pos)
    decreases |text| - pos
  {
    hide At, LineEnd, BlockEnd, IsSpace;
    if pos < |text| && IsSpace(text[pos]) {
      BlanksStop(text, pos + 1);
    } else if At(text, pos, "//") {
      CommentMoves(text, pos);
      BlanksStop(text, LineEnd(text, pos + 2));
    } else if At(text, pos, "/*") {
      CommentMoves(text, pos);
      BlanksStop(text, BlockEnd(text, pos + 2));
    }
  }

  lemma {:induction false} CommentMoves(text: string, pos: nat)
    requires At(text, pos, "//") || At(text, pos, "/*")
    ensures pos + 2 <= |text|
  {
  }

  /** The payload of a directive: at least one path. */
  function Read(text: string): Outcome<Payload> {
    match ReadFrom(text, 0, Payload([], None))
    case Fail(e) => Fail(e)
    case Ok(p) => if p.entries == [] then Fail(NoPath) else Ok(p)
  }

  /** The loop of `expandImportsInternal` over a payload. */
  method ParsePayload(text: string) returns (r: Outcome<Payload>)
    ensures r == Read(text)
  {
    hide Blanks, ReadEntry, IsSpace;
    var paths: seq<Entry> := [];
    var version: Option<string> := None;
    var pos := 0;
    while true
      invariant pos <= |text|
      invariant ReadFrom(text, 0, Payload([], None)) == ReadFrom(text, pos, Payload(paths, version))
      decreases |text| - pos
    {
      ghost var before := pos;
      BlanksStop(text, pos);
      pos := SkipWhitespaceAndComments(text, pos);
      if pos >= |text| {
        break;
      }
      if IsMark(text[pos]) {
        pos := pos + 1;
        continue;
      }
      var read := ParseEntry(text, pos, Payload(paths, version));
      if read.Fail? {
        return Fail(read.error);
      }
      pos, paths, version := read.value.next, read.value.payload.entries, read.value.payload.version;
    }
    if paths == [] {
      return Fail(NoPath);
    }
    return Ok(Payload(paths, version));
  }

  /** One entry of the loop. */
  method ParseEntry(text: string, start: nat, payload: Payload) returns (r: Outcome<Progress>)
    requires start < |text| && !IsSpace(text[start]) && !IsMark(text[start])
    ensures r == ReadEntry(text, start, payload)
  {
    hide Blanks, SlashFlaw, Trim, FindFrom, At, IsSpace;
    var pos := start;
    var keyword := Keyword(text, pos, "version");
    if keyword.Some? {
      pos := SkipWhitespaceAndComments(text, keyword.value);
      if pos >= |text| || text[pos] != '=' {
        return Fail(MissingEquals);
      }
      pos := SkipWhitespaceAndComments(text, pos + 1);
      if payload.version.Some? {
        return Fail(DuplicateVersion);
      }
      var value := ReadQuoted(text, pos);
      if value.Fail? {
        return Fail(value.error);
      }
      if !Separated(text, value.value.next) {
        return Fail(TextAfterVersion);
      }
      return Ok(Progress(value.value.next, payload.(version := Some(Trim(value.value.text)))));
    }
    if IsQuote(text[pos]) {
      var path := ReadQuoted(text, pos);
      if path.Fail? {
        return Fail(path.error);
      }
      if !Separated(text, path.value.next) {
        return Fail(TextAfterPath);
      }
      return Ok(Progress(path.value.next, payload.(entries := payload.entries + [Entry(Trim(path.value.text), false)])));
    }
    while !Separated(text, pos)
      invariant start <= pos <= |text| && BareEnd(text, start) == BareEnd(text, pos)
      decreases |text| - pos
    {
      pos := pos + 1;
    }
    var path := Trim(text[start..pos]);
    if path == "" || path[0] != '/' {
      return Fail(NoSlash);
    }
    var flaw := ValidateSlashPath(path);
    if flaw.Some? {
      return Fail(flaw.value);
    }
    return Ok(Progress(pos, payload.(entries := payload.entries + [Entry(path, true)])));
  }
}
