/** Scanners for literals, comments and import directives. */
module ImportScan {
  import opened Ir
  import opened Texts

  // ----- literals and comments -----

  /** Behind the literal whose inside goes on at `pos`; the end of the text if it stays open. */
  function Unquote(text: string, pos: nat, quote: char): (r: nat)
    requires pos <= |text|
    ensures pos <= r <= |text|
    decreases |text| - pos
  {
    if pos == |text| then pos
    else if quote == '"' && text[pos] == '\\' && pos + 1 < |text| then Unquote(text, pos + 2, quote)
    else if text[pos] == quote then pos + 1
    else Unquote(text, pos + 1, quote)
  }

  /** The next line break, or the end of the text. */
  function LineEnd(text: string, pos: nat): (r: nat)
    requires pos <= |text|
    ensures pos <= r <= |text| && (r < |text| ==> text[r] == '\n') && forall j :: pos <= j < r ==> text[j] != '\n'
    decreases |text| - pos
  {
    if pos < |text| && text[pos] != '\n' then LineEnd(text, pos + 1) else pos
  }

  predicate At(text: string, pos: nat, word: string) { pos + |word| <= |text| && text[pos..pos + |word|] == word }

  /** Behind the next end of a block comment, or the end of the text. */
  function BlockEnd(text: string, pos: nat): (r: nat)
    requires pos <= |text|
    ensures pos <= r <= |text|
    ensures r < |text| ==> r >= 2 && At(text, r - 2, "*/")
    ensures forall j :: pos <= j < r - 2 ==> !At(text, j, "*/")
    decreases |text| - pos
  {
    if pos == |text| then pos else if At(text, pos, "*/") then pos + 2 else BlockEnd(text, pos + 1)
  }

  /** Behind all space and comments. */
  function Blanks(text: string, pos: nat): (r: nat)
    requires pos <= |text|
    ensures pos <= r <= |text|
    decreases |text| - pos
  {
    if pos < |text| && IsSpace(text[pos]) then Blanks(text, pos + 1)
    else if At(text, pos, "//") then Blanks(text, LineEnd(text, pos + 2))
    else if At(text, pos, "/*") then Blanks(text, BlockEnd(text, pos + 2))
    else pos
  }

  function FindFrom(text: string, pos: nat, c: char): (r: Option<nat>)
    ensures r.Some? ==> pos <= r.value < |text| && text[r.value] == c
    decreases |text| - pos
  {
    if pos >= |text| then None else if text[pos] == c then Some(pos) else FindFrom(text, pos + 1, c)
  }

  predicate IsQuote(c: char) { c == '"' || c == '\'' }

  /** The '>' that ends a payload: not one inside a literal or a comment, unless a literal
      reaches the end of the text. `bare` says that an unquoted path is being read. */
  function PayloadEnd(text: string, pos: nat, bare: bool): (r: Option<nat>)
    requires pos <= |text|
    ensures r.Some? ==> pos <= r.value < |text| && text[r.value] == '>'
    decreases |text| - pos
  {
    if pos == |text| then None
    else if text[pos] == '>' then Some(pos)
    else if IsQuote(text[pos]) then
      var next := Unquote(text, pos + 1, text[pos]);
      if next == |text| then FindFrom(text, pos + 1, '>') else PayloadEnd(text, next, false)
    else if IsSpace(text[pos]) || text[pos] == ',' || text[pos] == ';' || text[pos] == '=' then PayloadEnd(text, pos + 1, false)
    else if !bare && At(text, pos, "//") then PayloadEnd(text, LineEnd(text, pos + 2), bare)
    else if !bare && At(text, pos, "/*") then PayloadEnd(text, BlockEnd(text, pos + 2), bare)
    else PayloadEnd(text, pos + 1, bare || text[pos] == '/')
  }

  predicate IsBoundary(c: char) {
    '0' <= c <= '9' || 'A' <= c <= 'Z' || 'a' <= c <= 'z' || c == '_' || c == '/'
  }

  /** Where the payload of a directive `word<...>` at `pos` begins, if there is one. */
  function PayloadStart(text: string, pos: nat, word: string): (r: Option<nat>)
    requires pos <= |text|
    ensures r.Some? ==> pos + |word| < r.value <= |text|
  {
    var scan := pos + |word|;
    if !At(text, pos, word) || (pos > 0 && IsBoundary(text[pos - 1])) then None
    else if scan < |text| && IsBoundary(text[scan]) && !At(text, scan, "//") && !At(text, scan, "/*") then None
    else
      var next := Blanks(text, scan);
      if next < |text| && text[next] == '<' then Some(next + 1) else None
  }

  // ----- one step through a source -----

  datatype Item = Skip(next: nat) | Legacy(terminated: bool) | Unterminated | Directive(start: nat, end: nat)

  /** What a source has at `i`: text to step over, an import directive, or an error. */
  function Look(source: string, i: nat): (r: Item)
    requires i < |source|
    ensures r.Skip? ==> i < r.next <= |source|
    ensures r.Directive? ==> i < r.start <= r.end < |source| && source[r.end] == '>'
  {
    if IsQuote(source[i]) then Skip(Unquote(source, i + 1, source[i]))
    else if At(source, i, "//") then Skip(LineEnd(source, i + 2))
    else if At(source, i, "/*") then Skip(BlockEnd(source, i + 2))
    else
      match PayloadStart(source, i, "include")
      case Some(start) => Legacy(PayloadEnd(source, start, false).Some?)
      case None =>
        match PayloadStart(source, i, "import")
        case None => Skip(i + 1)
        case Some(start) =>
          match PayloadEnd(source, start, false)
          case None => Unterminated
          case Some(end) => Directive(start, end)
  }

  // ----- a literal is skipped as a whole -----

  /** A text as it is written between double quotes. */
  function Escape(s: string): string {
    if s == "" then ""
    else (if s[0] == '"' || s[0] == '\\' then ['\\', s[0]] else [s[0]]) + Escape(s[1..])
  }

  /** Whatever a literal says, the scanner comes out right behind it. */
  lemma {:induction false} LiteralIsSkipped(before: string, s: string, after: string)
    ensures Unquote(before + Escape(s) + ['"'] + after, |before|, '"') == |before| + |Escape(s)| + 1
    decreases |s|
  {
    var text := before + Escape(s) + ['"'] + after;
    if s == "" {
      assert text[|before|] == '"';
    } else {
      var first := if s[0] == '"' || s[0] == '\\' then ['\\', s[0]] else [s[0]];
      assert Escape(s) == first + Escape(s[1..]);
      assert text == (before + first) + Escape(s[1..]) + ['"'] + after;
      assert forall j :: 0 <= j < |first| ==> text[|before| + j] == first[j];
      LiteralIsSkipped(before + first, s[1..], after);
    }
  }

  // ----- the loops -----

  method SkipQuotedLiteral(text: string, start: nat) returns (pos: nat)
    ensures pos == if start < |text| then Unquote(text, start + 1, text[start]) else start
  {
    if start >= |text| {
      return start;
    }
    var quote := text[start];
    pos := start + 1;
    while pos < |text|
      invariant pos <= |text| && Unquote(text, start + 1, quote) == Unquote(text, pos, quote)
    {
      if quote == '"' && text[pos] == '\\' && pos + 1 < |text| {
        pos := pos + 2;
        continue;
      }
      if text[pos] == quote {
        return pos + 1;
      }
      pos := pos + 1;
    }
  }

  method SkipLineComment(text: string, start: nat) returns (pos: nat)
    requires start + 2 <= |text|
    ensures pos == LineEnd(text, start + 2)
  {
    pos := start + 2;
    while pos < |text| && text[pos] != '\n'
      invariant pos <= |text| && LineEnd(text, start + 2) == LineEnd(text, pos)
    {
      pos := pos + 1;
    }
  }

  lemma {:induction false} AtTwo(text: string, pos: nat, word: string)
    requires |word| == 2
    ensures At(text, pos, word) <==> pos + 1 < |text| && text[pos] == word[0] && text[pos + 1] == word[1]
  {
  }

  lemma {:induction false} AtComment(text: string, pos: nat)
    ensures At(text, pos, "//") <==> pos + 1 < |text| && text[pos] == '/' && text[pos + 1] == '/'
    ensures At(text, pos, "/*") <==> pos + 1 < |text| && text[pos] == '/' && text[pos + 1] == '*'
  {
    hide At;
    AtTwo(text, pos, "//");
    AtTwo(text, pos, "/*");
  }

  lemma {:induction false} BlanksStep(text: string, pos: nat)
    requires pos <= |text|
    ensures pos < |text| && IsSpace(text[pos]) ==> Blanks(text, pos) == Blanks(text, pos + 1)
    ensures pos == |text| ==> Blanks(text, pos) == pos
  {
    hide At, IsSpace;
    AtComment(text, pos);
  }

  lemma {:induction false} BlanksComment(text: string, pos: nat)
    requires pos <= |text| && (pos < |text| ==> !IsSpace(text[pos]))
    ensures if pos + 1 < |text| && text[pos] == '/' && text[pos + 1] == '/' then Blanks(text, pos) == Blanks(text, LineEnd(text, pos + 2))
            else if pos + 1 < |text| && text[pos] == '/' && text[pos + 1] == '*' then Blanks(text, pos) == Blanks(text, BlockEnd(text, pos + 2))
            else Blanks(text, pos) == pos
  {
    hide At, IsSpace, LineEnd, BlockEnd;
    AtComment(text, pos);
  }

  /** The loop takes a run of spaces and one comment at a time. */
  method SkipWhitespaceAndComments(text: string, start: nat) returns (pos: nat)
    requires start <= |text|
    ensures pos == Blanks(text, start)
  {
    hide Blanks, LineEnd, BlockEnd, IsSpace;
    pos := start;
    while pos < |text|
      invariant pos <= |text| && Blanks(text, start) == Blanks(text, pos)
    {
      var advanced := false;
      ghost var entry := pos;
      while pos < |text| && IsSpace(text[pos])
        invariant entry <= pos <= |text| && Blanks(text, start) == Blanks(text, pos)
        invariant advanced <==> pos > entry
      {
        BlanksStep(text, pos);
        pos := pos + 1;
        advanced := true;
      }
      BlanksComment(text, pos);
      if pos + 1 < |text| && text[pos] == '/' {
        if text[pos + 1] == '/' {
          pos := SkipLineComment(text, pos);
          advanced := true;
        } else if text[pos + 1] == '*' {
          pos := BlockEnd(text, pos + 2);
          advanced := true;
        }
      }
      if !advanced {
        return;
      }
    }
    BlanksStep(text, pos);
  }

  method FindIncludePayloadEnd(source: string, start: nat) returns (end: Option<nat>)
    requires start <= |source|
    ensures end == PayloadEnd(source, start, false)
  {
    hide At, LineEnd, BlockEnd, Unquote, FindFrom, IsSpace;
    var pos := start;
    var inBarePath := false;
    while pos < |source|
      invariant pos <= |source| && PayloadEnd(source, start, false) == PayloadEnd(source, pos, inBarePath)
    {
      var c := source[pos];
      AtComment(source, pos);
      if c == '>' {
        return Some(pos);
      }
      if IsQuote(c) {
        var next := SkipQuotedLiteral(source, pos);
        if next >= |source| {
          return FindFrom(source, pos + 1, '>');
        }
        pos := next;
        inBarePath := false;
        continue;
      }
      if IsSpace(c) || c == ',' || c == ';' || c == '=' {
        pos := pos + 1;
        inBarePath := false;
        continue;
      }
      if !inBarePath && c == '/' && pos + 1 < |source| {
        if source[pos + 1] == '/' {
          pos := SkipLineComment(source, pos);
          continue;
        }
        if source[pos + 1] == '*' {
          pos := BlockEnd(source, pos + 2);
          continue;
        }
      }
      if !inBarePath && c == '/' {
        inBarePath := true;
      }
      pos := pos + 1;
    }
    return None;
  }

  /** `scanIncludeDirective` and `scanLegacyIncludeDirective`, which differ in the word. */
  method ScanDirective(source: string, pos: nat, word: string) returns (start: Option<nat>, end: Option<nat>)
    requires pos <= |source|
    ensures start == PayloadStart(source, pos, word)
    ensures end == if start.Some? then PayloadEnd(source, start.value, false) else None
  {
    hide IsBoundary, Blanks, PayloadEnd;
    if !At(source, pos, word) || (pos > 0 && IsBoundary(source[pos - 1])) {
      return None, None;
    }
    var scan := pos + |word|;
    AtComment(source, scan);
    if scan < |source| && IsBoundary(source[scan]) {
      if !(source[scan] == '/' && scan + 1 < |source| && (source[scan + 1] == '/' || source[scan + 1] == '*')) {
        return None, None;
      }
    }
    scan := SkipWhitespaceAndComments(source, scan);
    if scan >= |source| || source[scan] != '<' {
      return None, None;
    }
    start := Some(scan + 1);
    end := FindIncludePayloadEnd(source, scan + 1);
  }
}
