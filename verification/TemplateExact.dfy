/** Which texts split into a base and an argument, and into which arguments any text splits. */
module TemplateExact {
  import opened Ir
  import opened Texts
  import opened TemplateText

  // ----- type names -----

  lemma {:induction false} LevelOn(c: char, s: string)
    ensures Level([c] + s) == Level(s) + (if c == '<' then 1 else if c == '>' then -1 else 0)
  {
    LevelConcat([c], s);
    assert [c][..0] == "";
  }

  /** The bracket found is the first behind a text whose levels, counted from `depth`, do not
      fall below 0 and end there. */
  lemma {:induction false} ClosesAtLevel(text: string, depth: nat, n: nat)
    requires Close(text, depth) < |text| && n <= Close(text, depth)
    ensures text[Close(text, depth)] == '>'
    ensures depth + Level(text[..n]) >= 0 && depth + Level(text[..Close(text, depth)]) == 0
    decreases |text|
  {
    hide Level;
    assert text[..0] == "";
    EmptyLevel();
    var k := Close(text, depth);
    if k > 0 {
      var rest := text[1..];
      assert k == 1 + Close(rest, Deeper(depth, text[0]));
      ClosesAtLevel(rest, Deeper(depth, text[0]), if n == 0 then 0 else n - 1);
      assert text[..k] == [text[0]] + rest[..k - 1];
      LevelOn(text[0], rest[..k - 1]);
      if n > 0 {
        assert text[..n] == [text[0]] + rest[..n - 1];
        LevelOn(text[0], rest[..n - 1]);
      }
    }
  }

  lemma {:induction false} ClosedIsBalanced(rest: string, arg: string)
    requires rest == arg + ">" && Close(rest, 0) == |arg|
    ensures IsBalanced(arg)
  {
    hide Level, Close;
    assert rest[..|arg|] == arg;
    forall n | 0 <= n <= |arg|
      ensures Level(arg[..n]) >= 0
    {
      ClosesAtLevel(rest, 0, n);
      assert rest[..n] == arg[..n];
    }
    ClosesAtLevel(rest, 0, 0);
  }

  lemma {:induction false} BalancedCloses(arg: string)
    requires IsBalanced(arg)
    ensures Close(arg + ">", 0) == |arg|
  {
    hide Level;
    CloseScans(arg, 0, ">");
    assert arg[0..] == arg && arg[..0] == "";
    EmptyLevel();
    assert Close(">", 0) == 0;
  }

  lemma {:induction false} FoundAt(base: string, c: char, rest: string)
    requires c !in base
    ensures Find(base + [c] + rest, c) == |base|
  {
    var text := base + [c] + rest;
    assert text[|base|] == c && forall j :: 0 <= j < |base| ==> text[j] == base[j];
  }

  /** A text splits into a base and an argument exactly if it is the base, an argument with
      balanced brackets between a pair of brackets, and nothing else, and the base is not empty
      and has no bracket. */
  lemma {:induction false} TypeNameIsExact(text: string, base: string, arg: string)
    ensures SplitName(text) == Some(TypeName(base, arg)) <==>
            text == base + ['<'] + arg + ['>'] && base != "" && '<' !in base && IsBalanced(arg)
  {
    hide IsBalanced, Find, Close, Level;
    if text == base + ['<'] + arg + ['>'] && base != "" && '<' !in base && IsBalanced(arg) {
      assert text == base + ['<'] + (arg + ['>']);
      FoundAt(base, '<', arg + ['>']);
      BalancedCloses(arg);
      assert text[..|base|] == base && text[|base| + 1..] == arg + ">" && (arg + ">")[..|arg|] == arg;
    }
    if SplitName(text) == Some(TypeName(base, arg)) {
      var open := |base|;
      var rest := text[open + 1..];
      assert rest == arg + ">";
      assert text == text[..open] + [text[open]] + rest;
      ClosedIsBalanced(rest, arg);
    }
  }

  /** A plain type name does not split. */
  lemma {:induction false} PlainNamesStay(text: string)
    ensures '<' !in text ==> SplitName(text) == None
  {
    hide SplitName;
    if SplitName(text).Some? {
      var name := SplitName(text).value;
      TypeNameIsExact(text, name.base, name.arg);
      assert text[|name.base|] == '<';
    }
  }

  // ----- arguments -----

  /** The depth behind a text; a closing bracket too many is ignored. */
  function Depth(s: string): nat {
    if s == "" then 0
    else
      var before, c := Depth(s[..|s| - 1]), s[|s| - 1];
      if c == '<' then before + 1 else if c == '>' && before > 0 then before - 1 else before
  }

  /** No comma of the text stands outside brackets. */
  predicate IsPiece(s: string) { forall n :: 0 <= n < |s| && s[n] == ',' ==> Depth(s[..n]) > 0 }

  function WithCommas(pieces: seq<string>): string {
    if pieces == [] then "" else if |pieces| == 1 then pieces[0] else pieces[0] + ([','] + WithCommas(pieces[1..]))
  }

  /** Every piece but the last ends outside brackets. */
  predicate ArePieces(pieces: seq<string>) {
    && (forall i :: 0 <= i < |pieces| ==> IsPiece(pieces[i]))
    && (forall i :: 0 <= i < |pieces| - 1 ==> Depth(pieces[i]) == 0)
  }

  function Trims(pieces: seq<string>): (r: seq<string>)
    ensures |r| == |pieces| && forall i :: 0 <= i < |pieces| ==> r[i] == Trim(pieces[i])
  {
    if pieces == [] then [] else [Trim(pieces[0])] + Trims(pieces[1..])
  }

  lemma {:induction false} DepthPush(s: string, c: char)
    ensures Depth(s + [c]) == Deeper(Depth(s), c)
  {
    assert (s + [c])[..|s|] == s;
  }

  /** Scanning past the first `n` characters of a piece arrives at their depth. */
  lemma {:induction false} PieceScans(s: string, n: nat, t: string)
    requires IsPiece(s) && n <= |s|
    ensures Cut(s[n..] + t, Depth(s[..n])) == |s| - n + Cut(t, Depth(s))
    decreases |s| - n
  {
    if n == |s| {
      assert s[..n] == s && s[n..] + t == t;
    } else {
      var todo := s[n..] + t;
      assert todo[0] == s[n] && todo[1..] == s[n + 1..] + t;
      assert s[..n] + [s[n]] == s[..n + 1];
      DepthPush(s[..n], s[n]);
      PieceScans(s, n + 1, t);
    }
  }

  lemma {:induction false} PieceIsCut(s: string, t: string)
    requires IsPiece(s)
    ensures Cut(s + t, 0) == |s| + Cut(t, Depth(s))
  {
    hide Cut;
    PieceScans(s, 0, t);
    assert s[..0] == "" && s[0..] == s;
    assert Depth("") == 0;
  }

  lemma {:induction false} TailPieces(pieces: seq<string>)
    requires pieces != [] && ArePieces(pieces)
    ensures ArePieces(pieces[1..]) && IsPiece(pieces[0]) && (|pieces| > 1 ==> Depth(pieces[0]) == 0)
  {
    hide IsPiece, Depth;
    assert forall i :: 0 <= i < |pieces| - 1 ==> pieces[1..][i] == pieces[i + 1];
  }

  lemma {:induction false} CommaCutsAtOnce(rest: string)
    ensures Cut([','] + rest, 0) == 0
  {
  }

  lemma {:induction false} NothingToCut(depth: nat)
    ensures Cut("", depth) == 0
  {
  }

  /** Whatever pieces a text is made of, separated by commas, its arguments are the pieces
      without outer spaces. */
  lemma {:induction false} PiecesAreArguments(pieces: seq<string>)
    requires pieces != [] && ArePieces(pieces)
    ensures Segments(WithCommas(pieces)) == Trims(pieces)
    decreases |pieces|
  {
    hide Cut, Segments, IsPiece, Trim, Depth, ArePieces;
    TailPieces(pieces);
    var first := pieces[0];
    if |pieces| == 1 {
      PieceIsCut(first, "");
      NothingToCut(Depth(first));
      assert first + "" == first;
      SegmentsUnfold(first, |first|);
      assert Trims(pieces) == [Trim(first)];
    } else {
      var rest := WithCommas(pieces[1..]);
      var text := first + ([','] + rest);
      PieceIsCut(first, [','] + rest);
      CommaCutsAtOnce(rest);
      SegmentsUnfold(text, |first|);
      assert text[..|first|] == first && text[|first| + 1..] == rest;
      PiecesAreArguments(pieces[1..]);
    }
  }

  lemma {:induction false} PiecePush(s: string, c: char)
    requires IsPiece(s) && (c == ',' ==> Depth(s) > 0)
    ensures IsPiece(s + [c])
  {
    hide Depth;
    forall n | 0 <= n < |s + [c]| && (s + [c])[n] == ','
      ensures Depth((s + [c])[..n]) > 0
    {
      assert (s + [c])[..n] == s[..n];
      assert s[..|s|] == s;
    }
  }

  lemma {:induction false} CutOn(text: string, depth: nat)
    requires Cut(text, depth) > 0
    ensures text != "" && Cut(text, depth) == 1 + Cut(text[1..], Deeper(depth, text[0])) && (text[0] == ',' ==> depth > 0)
  {
  }

  lemma {:induction false} CutHere(text: string, depth: nat)
    requires Cut(text, depth) == 0 && text != ""
    ensures text[0] == ',' && depth == 0
  {
  }

  /** Up to the cut there is no comma outside brackets. */
  lemma {:induction false} CutIsPiece(done: string, text: string, k: nat)
    requires IsPiece(done) && k == Cut(text, Depth(done))
    ensures IsPiece(done + text[..k]) && (k < |text| ==> text[k] == ',' && Depth(done + text[..k]) == 0)
    decreases |text|
  {
    hide IsPiece, Depth, Cut;
    if k == 0 {
      assert done + text[..0] == done;
      if text != "" {
        CutHere(text, Depth(done));
      }
    } else {
      CutOn(text, Depth(done));
      DepthPush(done, text[0]);
      PiecePush(done, text[0]);
      CutIsPiece(done + [text[0]], text[1..], k - 1);
      assert done + [text[0]] + text[1..][..k - 1] == done + text[..k];
    }
  }

  lemma {:induction false} PiecesOn(first: string, rest: seq<string>)
    requires IsPiece(first) && (rest != [] ==> Depth(first) == 0) && ArePieces(rest)
    ensures ArePieces([first] + rest) && WithCommas([first] + rest) == if rest == [] then first else first + ([','] + WithCommas(rest))
  {
    hide IsPiece, Depth;
    var pieces := [first] + rest;
    assert pieces[1..] == rest;
    assert forall i :: 1 <= i < |pieces| ==> pieces[i] == rest[i - 1];
  }

  /** Every text is made of such pieces. */
  lemma {:induction false} TextHasPieces(text: string) returns (pieces: seq<string>)
    ensures pieces != [] && ArePieces(pieces) && WithCommas(pieces) == text
    decreases |text|
  {
    hide Cut, IsPiece, ArePieces, WithCommas, Depth;
    var k := Cut(text, 0);
    NothingIsPiece();
    CutIsPiece("", text, k);
    assert "" + text[..k] == text[..k];
    if k == |text| {
      assert text[..k] == text;
      NoPieces();
      PiecesOn(text, []);
      pieces := [text] + [];
    } else {
      var rest := TextHasPieces(text[k + 1..]);
      PiecesOn(text[..k], rest);
      pieces := [text[..k]] + rest;
      assert text == text[..k] + ([','] + text[k + 1..]);
    }
  }

  lemma {:induction false} NoPieces()
    ensures ArePieces([])
  {
  }

  lemma {:induction false} NothingIsPiece()
    ensures IsPiece("") && Depth("") == 0
  {
  }

  /** The arguments of every text but the empty one are the pieces between its commas outside
      brackets, without outer spaces; empty pieces count. */
  lemma {:induction false} ArgumentsAreExact(text: string, args: seq<string>)
    requires text != ""
    ensures SplitArgs(text) == args <==>
            exists pieces: seq<string> :: pieces != [] && ArePieces(pieces) && WithCommas(pieces) == text && Trims(pieces) == args
    ensures SplitArgs("") == []
  {
    hide Segments, ArePieces, Trims, WithCommas;
    if SplitArgs(text) == args {
      var pieces := TextHasPieces(text);
      PiecesAreArguments(pieces);
    }
    if pieces: seq<string> :| pieces != [] && ArePieces(pieces) && WithCommas(pieces) == text && Trims(pieces) == args {
      PiecesAreArguments(pieces);
    }
  }

  // ----- outer spaces -----

  predicate Blank(s: string) { forall c :: c in s ==> c as int in {9, 10, 11, 12, 13, 32} }

  lemma {:induction false} SpacesAreBlank(c: char)
    ensures IsSpace(c) <==> c as int in {9, 10, 11, 12, 13, 32}
  {
  }

  lemma {:induction false} LeftTrimmed(s: string) returns (lead: string)
    ensures Blank(lead) && s == lead + TrimLeft(s) && (TrimLeft(s) == "" || !IsSpace(TrimLeft(s)[0]))
  {
    hide IsSpace;
    lead := "";
    if s != "" && IsSpace(s[0]) {
      SpacesAreBlank(s[0]);
      var more := LeftTrimmed(s[1..]);
      lead := [s[0]] + more;
      assert s == [s[0]] + s[1..];
    }
  }

  lemma {:induction false} RightTrimmed(s: string) returns (trail: string)
    ensures Blank(trail) && s == TrimRight(s) + trail && (TrimRight(s) == "" || !IsSpace(TrimRight(s)[|TrimRight(s)| - 1]))
  {
    hide IsSpace;
    trail := "";
    if s != "" && IsSpace(s[|s| - 1]) {
      var n := |s| - 1;
      SpacesAreBlank(s[n]);
      var more := RightTrimmed(s[..n]);
      trail := more + [s[n]];
      assert s == s[..n] + [s[n]];
    }
  }

  lemma {:induction false} LeadIsDropped(lead: string, s: string)
    requires Blank(lead)
    ensures TrimLeft(lead + s) == TrimLeft(s)
  {
    hide IsSpace;
    if lead == "" {
      assert lead + s == s;
    } else {
      SpacesAreBlank(lead[0]);
      assert lead[0] in lead && (forall c :: c in lead[1..] ==> c in lead) && (lead + s)[1..] == lead[1..] + s;
      LeadIsDropped(lead[1..], s);
    }
  }

  lemma {:induction false} TrailIsDropped(s: string, trail: string)
    requires Blank(trail)
    ensures TrimRight(s + trail) == TrimRight(s)
    decreases |trail|
  {
    hide IsSpace;
    if trail == "" {
      assert s + trail == s;
    } else {
      var n := |trail| - 1;
      SpacesAreBlank(trail[n]);
      assert trail[n] in trail && (forall c :: c in trail[..n] ==> c in trail) && (s + trail)[..|s| + n] == s + trail[..n];
      TrailIsDropped(s, trail[..n]);
    }
  }

  /** Trimming takes off exactly the outer spaces. */
  lemma {:induction false} TrimIsExact(s: string, t: string)
    ensures Trim(s) == t <==>
            && (t == "" || (!Blank([t[0]]) && !Blank([t[|t| - 1]])))
            && exists lead: string, trail: string :: Blank(lead) && Blank(trail) && s == lead + t + trail
  {
    hide IsSpace, TrimLeft, TrimRight, Blank;
    if Trim(s) == t {
      TrimSurrounds(s);
    }
    if t == "" || (!Blank([t[0]]) && !Blank([t[|t| - 1]])) {
      if lead: string, trail: string :| Blank(lead) && Blank(trail) && s == lead + t + trail {
        SurroundedTrims(lead, t, trail);
      }
    }
  }

  lemma {:induction false} OneBlank(c: char)
    ensures Blank([c]) <==> IsSpace(c)
  {
    SpacesAreBlank(c);
    assert c in [c];
  }

  lemma {:induction false} TrimSurrounds(s: string)
    ensures exists lead: string, trail: string :: Blank(lead) && Blank(trail) && s == lead + Trim(s) + trail
    ensures var t := Trim(s); t == "" || (!Blank([t[0]]) && !Blank([t[|t| - 1]]))
  {
    hide IsSpace, TrimLeft, TrimRight, Blank;
    var lead := LeftTrimmed(s);
    var trail := RightTrimmed(TrimLeft(s));
    assert s == lead + Trim(s) + trail;
    var t := Trim(s);
    if t != "" {
      assert TrimLeft(s)[0] == t[0];
      OneBlank(t[0]);
      OneBlank(t[|t| - 1]);
    }
  }

  lemma {:induction false} SurroundedTrims(lead: string, t: string, trail: string)
    requires Blank(lead) && Blank(trail) && (t == "" || (!Blank([t[0]]) && !Blank([t[|t| - 1]])))
    ensures Trim(lead + t + trail) == t
  {
    hide IsSpace, TrimLeft, TrimRight, Blank;
    assert lead + t + trail == lead + (t + trail);
    LeadIsDropped(lead, t + trail);
    if t == "" {
      assert t + trail == trail + "" && "" + trail == trail;
      LeadIsDropped(trail, "");
      NothingToTrim();
    } else {
      OneBlank(t[0]);
      OneBlank(t[|t| - 1]);
      NoSpaceToTrim(t + trail);
      TrailIsDropped(t, trail);
      NoSpaceToTrim(t);
    }
  }

  lemma {:induction false} NothingToTrim()
    ensures TrimLeft("") == "" && TrimRight("") == ""
  {
  }

  lemma {:induction false} NoSpaceToTrim(s: string)
    requires s != ""
    ensures !IsSpace(s[0]) ==> TrimLeft(s) == s
    ensures !IsSpace(s[|s| - 1]) ==> TrimRight(s) == s
  {
    hide IsSpace;
  }
}
