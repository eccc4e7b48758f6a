/** Template type names as text: joining arguments, and splitting them apart again. */
module TemplateText {
  import opened Ir
  import opened Texts

  // ----- the functions of the printer, by recursion -----

  function Join(args: seq<string>): string {
    if args == [] then "" else if |args| == 1 then args[0] else args[0] + ", " + Join(args[1..])
  }

  /** The splitter's depth behind character `c`; a closing bracket too many is ignored. */
  function Deeper(depth: nat, c: char): nat {
    if c == '<' then depth + 1 else if c == '>' && depth > 0 then depth - 1 else depth
  }

  /** Where the first comma outside brackets is, or the length of the text. */
  function Cut(text: string, depth: nat): (k: nat)
    ensures k <= |text|
  {
    if text == "" || (text[0] == ',' && depth == 0) then 0 else 1 + Cut(text[1..], Deeper(depth, text[0]))
  }

  function Segments(text: string): seq<string>
    decreases |text|
  {
    var k := Cut(text, 0);
    if k == |text| then [Trim(text)] else [Trim(text[..k])] + Segments(text[k + 1..])
  }

  function SplitArgs(text: string): seq<string> { if text == "" then [] else Segments(text) }

  function Find(text: string, c: char): (k: nat)
    ensures k <= |text| && (k < |text| ==> text[k] == c) && forall j :: 0 <= j < k ==> text[j] != c
  {
    if text == "" || text[0] == c then 0 else 1 + Find(text[1..], c)
  }

  /** Where the bracket closes that was open before the text, or its length. */
  function Close(text: string, depth: nat): (k: nat)
    ensures k <= |text|
  {
    if text == "" then 0
    else if text[0] == '>' && depth == 0 then 0
    else 1 + Close(text[1..], Deeper(depth, text[0]))
  }

  datatype TypeName = TypeName(base: string, arg: string)

  function SplitName(text: string): Option<TypeName> {
    var open := Find(text, '<');
    if open == |text| || open == 0 || text[|text| - 1] != '>' then None
    else
      var rest := text[open + 1..];
      var k := Close(rest, 0);
      if k == |rest| || k + 1 != |rest| then None else Some(TypeName(text[..open], rest[..k]))
  }

  // ----- balanced text -----

  function Level(s: string): int {
    if s == "" then 0
    else Level(s[..|s| - 1]) + (if s[|s| - 1] == '<' then 1 else if s[|s| - 1] == '>' then -1 else 0)
  }

  predicate IsBalanced(s: string) {
    Level(s) == 0 && forall n :: 0 <= n <= |s| ==> Level(s[..n]) >= 0
  }

  predicate NoTopComma(s: string) { forall n :: 0 <= n < |s| && s[n] == ',' ==> Level(s[..n]) > 0 }

  /** A template argument: not empty, no outer spaces, balanced, no comma outside brackets. */
  predicate IsArg(s: string) { IsTrimmed(s) && IsBalanced(s) && NoTopComma(s) }

  lemma {:induction false} LevelPush(s: string, c: char)
    ensures Level(s + [c]) == Level(s) + (if c == '<' then 1 else if c == '>' then -1 else 0)
  {
    assert (s + [c])[..|s|] == s;
  }

  lemma {:induction false} LevelConcat(s: string, t: string)
    ensures Level(s + t) == Level(s) + Level(t)
    decreases |t|
  {
    if t == "" {
      assert s + t == s;
    } else {
      assert (s + t)[..|s + t| - 1] == s + t[..|t| - 1];
      LevelConcat(s, t[..|t| - 1]);
    }
  }

  /** Scanning past the first `n` characters of balanced text arrives at their level. */
  lemma {:induction false} CutScans(s: string, n: nat, t: string)
    requires IsBalanced(s) && NoTopComma(s) && n <= |s|
    ensures Cut(s[n..] + t, Level(s[..n])) == |s| - n + Cut(t, 0)
    decreases |s| - n
  {
    if n == |s| {
      assert s[..n] == s && s[n..] + t == t;
    } else {
      var todo := s[n..] + t;
      assert todo[0] == s[n] && todo[1..] == s[n + 1..] + t;
      assert s[..n] + [s[n]] == s[..n + 1];
      LevelPush(s[..n], s[n]);
      CutScans(s, n + 1, t);
    }
  }

  lemma {:induction false} CloseScans(s: string, n: nat, t: string)
    requires IsBalanced(s) && n <= |s|
    ensures Close(s[n..] + t, Level(s[..n])) == |s| - n + Close(t, 0)
    decreases |s| - n
  {
    if n == |s| {
      assert s[..n] == s && s[n..] + t == t;
    } else {
      var todo := s[n..] + t;
      assert todo[0] == s[n] && todo[1..] == s[n + 1..] + t;
      assert s[..n] + [s[n]] == s[..n + 1];
      LevelPush(s[..n], s[n]);
      CloseScans(s, n + 1, t);
    }
  }

  lemma {:induction false} BalancedConcat(s: string, t: string)
    requires IsBalanced(s) && IsBalanced(t)
    ensures IsBalanced(s + t)
  {
    LevelConcat(s, t);
    forall n | 0 <= n <= |s + t|
      ensures Level((s + t)[..n]) >= 0
    {
      if n <= |s| {
        assert (s + t)[..n] == s[..n];
      } else {
        assert (s + t)[..n] == s + t[..n - |s|];
        LevelConcat(s, t[..n - |s|]);
      }
    }
  }

  lemma {:induction false} SeparatorIsBalanced()
    ensures IsBalanced(", ")
  {
    assert ", "[..0] == "" && ", "[..1] == "," && ", "[..2] == ", " && ","[..0] == "";
    assert Level(",") == 0 && Level(", ") == 0;
  }

  predicate AllArgs(args: seq<string>) { forall a :: a in args ==> IsArg(a) }

  lemma {:induction false} JoinIsBalanced(args: seq<string>)
    requires AllArgs(args)
    ensures IsBalanced(Join(args))
  {
    if |args| == 1 {
      assert args[0] in args;
    } else if |args| > 1 {
      assert args[0] in args && forall a :: a in args[1..] ==> a in args;
      JoinIsBalanced(args[1..]);
      SeparatorIsBalanced();
      BalancedConcat(args[0], ", ");
      BalancedConcat(args[0] + ", ", Join(args[1..]));
    }
  }

  // ----- splitting undoes joining -----

  lemma {:induction false} LeadingSpaceIsDropped(text: string)
    ensures Segments(" " + text) == Segments(text)
  {
    var k := Cut(text, 0);
    assert (" " + text)[1..] == text;
    assert Cut(" " + text, 0) == 1 + k;
    if k == |text| {
      assert Trim(" " + text) == Trim(text);
    } else {
      assert (" " + text)[..1 + k] == " " + text[..k];
      assert (" " + text[..k])[1..] == text[..k];
      assert (" " + text)[1 + k + 1..] == text[k + 1..];
    }
  }

  /** The segments of text whose first outer comma is at `k`. */
  lemma {:induction false} SegmentsUnfold(text: string, k: nat)
    requires k == Cut(text, 0)
    ensures k == |text| ==> Segments(text) == [Trim(text)]
    ensures k < |text| ==> Segments(text) == [Trim(text[..k])] + Segments(text[k + 1..])
  {
    hide Cut, Trim;
  }

  /** The first outer comma behind an argument is the first of the text that follows it. */
  lemma {:induction false} CutAfterArg(a: string, t: string)
    requires IsArg(a)
    ensures Cut(a + t, 0) == |a| + Cut(t, 0)
  {
    hide Cut, Level, IsTrimmed;
    CutScans(a, 0, t);
    assert a[..0] == "" && a[0..] == a;
    EmptyLevel();
  }

  lemma {:induction false} CutAtOnce(t: string)
    ensures Cut("", 0) == 0 && Cut(", " + t, 0) == 0
  {
    assert (", " + t)[0] == ',';
  }

  lemma {:induction false} ArgIsTrimmed(a: string)
    requires IsArg(a)
    ensures IsTrimmed(a) && Trim(a) == a
  {
    hide Level, Trim;
    TrimmedStays(a);
  }

  lemma {:induction false} SegmentsOfJoin(args: seq<string>)
    requires AllArgs(args) && args != []
    ensures Segments(Join(args)) == args
    decreases |args|
  {
    hide Cut, Segments, IsArg, Trim;
    var a := args[0];
    assert a in args;
    CutAtOnce("");
    ArgIsTrimmed(a);
    if |args| == 1 {
      CutAfterArg(a, "");
      assert a + "" == a;
      SegmentsUnfold(a, |a|);
      assert args == [a];
    } else {
      var rest := Join(args[1..]);
      assert forall x :: x in args[1..] ==> x in args;
      var text := Join(args);
      assert text == a + (", " + rest);
      CutAfterArg(a, ", " + rest);
      CutAtOnce(rest);
      SegmentsUnfold(text, |a|);
      assert text[..|a|] == a && text[|a| + 1..] == " " + rest;
      SegmentsOfJoin(args[1..]);
      LeadingSpaceIsDropped(rest);
      assert [a] + args[1..] == args;
    }
  }

  /** For every base without '<' and every list of arguments, however nested, the type name
      built from them splits into the base and a text that splits into exactly that list.
      Only an empty base is refused. */
  lemma {:induction false} SplittingUndoesJoining(base: string, args: seq<string>)
    requires '<' !in base && args != [] && AllArgs(args)
    ensures SplitArgs(Join(args)) == args
    ensures SplitName(base + "<" + Join(args) + ">") ==
            if base == "" then None else Some(TypeName(base, Join(args)))
  {
    hide Cut, IsArg, Level, Segments;
    SegmentsOfJoin(args);
    JoinIsNotEmpty(args);
    var joined := Join(args);
    var text := base + "<" + joined + ">";
    assert text[|base|] == '<' && forall j :: 0 <= j < |base| ==> text[j] == base[j];
    assert Find(text, '<') == |base|;
    var rest := text[|base| + 1..];
    assert rest == joined + ">" && text[..|base|] == base;
    JoinIsBalanced(args);
    CloseScans(joined, 0, ">");
    assert joined[0..] == joined && joined[..0] == "";
    EmptyLevel();
    assert Close(">", 0) == 0;
    assert rest[..|joined|] == joined;
  }

  lemma {:induction false} EmptyLevel()
    ensures Level("") == 0
  {
  }

  lemma {:induction false} JoinIsNotEmpty(args: seq<string>)
    requires AllArgs(args) && args != []
    ensures Join(args) != ""
  {
    assert args[0] in args;
  }

  // ----- the loops -----

  lemma {:induction false} JoinPush(args: seq<string>, a: string)
    ensures Join(args + [a]) == if args == [] then a else Join(args) + ", " + a
    decreases |args|
  {
    if args != [] {
      assert (args + [a])[1..] == args[1..] + [a];
      JoinPush(args[1..], a);
      if |args| > 1 {
        assert args[0] + ", " + (Join(args[1..]) + ", " + a) == (args[0] + ", " + Join(args[1..])) + ", " + a;
      }
    }
  }

  /** `joinTemplateArgs`. */
  method JoinTemplateArgs(args: seq<string>) returns (out: string)
    ensures out == Join(args)
  {
    out := "";
    for i := 0 to |args|
      invariant out == Join(args[..i])
    {
      JoinPush(args[..i], args[i]);
      assert args[..i + 1] == args[..i] + [args[i]];
      if i > 0 {
        out := out + ", ";
      }
      out := out + args[i];
    }
    assert args[..|args|] == args;
  }

  lemma {:induction false} CutStep(text: string, i: nat, depth: nat)
    requires i < |text|
    ensures Cut(text[i..], depth) ==
            if text[i] == ',' && depth == 0 then 0 else 1 + Cut(text[i + 1..], Deeper(depth, text[i]))
  {
    assert text[i..][0] == text[i] && text[i..][1..] == text[i + 1..];
  }

  lemma {:induction false} CloseStep(text: string, i: nat, depth: nat)
    requires i < |text|
    ensures Close(text[i..], depth) ==
            if text[i] == '>' && depth == 0 then 0 else 1 + Close(text[i + 1..], Deeper(depth, text[i]))
  {
    assert text[i..][0] == text[i] && text[i..][1..] == text[i + 1..];
  }

  lemma {:induction false} NothingLeft(text: string, depth: nat)
    ensures Cut(text[|text|..], depth) == 0 && Close(text[|text|..], depth) == 0
  {
  }

  /** `splitTemplateTypeName`. */
  method SplitTemplateTypeName(text: string) returns (r: Option<TypeName>)
    ensures r == SplitName(text)
  {
    hide Close;
    var open := Find(text, '<');
    if open == |text| || open == 0 || text[|text| - 1] != '>' {
      return None;
    }
    var depth: nat := 0;
    var start := open + 1;
    for i := start to |text|
      invariant Close(text[start..], 0) == i - start + Close(text[i..], depth)
    {
      CloseStep(text, i, depth);
      if text[i] == '<' {
        depth := depth + 1;
        continue;
      }
      if text[i] == '>' {
        if depth == 0 {
          assert text[start..][..i - start] == text[start..i];
          if i + 1 != |text| {
            return None;
          }
          return Some(TypeName(text[..open], text[start..i]));
        }
        depth := depth - 1;
      }
    }
    NothingLeft(text, depth);
    return None;
  }

  /** The segment of `text` between two offsets, without outer spaces. */
  method Segment(text: string, start: nat, end: nat) returns (segment: string)
    requires start <= end <= |text|
    ensures segment == Trim(text[start..end])
  {
    var first := start;
    while first < end && IsSpace(text[first])
      invariant start <= first <= end
      invariant TrimLeft(text[start..end]) == TrimLeft(text[first..end])
    {
      assert text[first..end][1..] == text[first + 1..end];
      first := first + 1;
    }
    assert TrimLeft(text[first..end]) == text[first..end];
    var last := end;
    while last > first && IsSpace(text[last - 1])
      invariant first <= last <= end
      invariant TrimRight(text[first..end]) == TrimRight(text[first..last])
    {
      assert text[first..last][..last - 1 - first] == text[first..last - 1];
      last := last - 1;
    }
    segment := text[first..last];
  }

  /** What the segments found so far say of the whole text. */
  predicate Progress(text: string, out: seq<string>, start: nat) {
    start <= |text| && Segments(text) == out + Segments(text[start..])
  }

  lemma {:induction false} ProgressStart(text: string)
    ensures Progress(text, [], 0)
  {
    hide Segments;
    assert text[0..] == text && [] + Segments(text) == Segments(text);
  }

  lemma {:induction false} PushSegment(text: string, out: seq<string>, start: nat, i: nat)
    requires Progress(text, out, start) && start <= i <= |text| && Cut(text[start..], 0) == i - start
    ensures i < |text| ==> Progress(text, out + [Trim(text[start..i])], i + 1)
    ensures i == |text| ==> Segments(text) == out + [Trim(text[start..i])]
  {
    hide Cut, Segments, Trim;
    SegmentsUnfold(text[start..], i - start);
    if i < |text| {
      var segment := Trim(text[start..i]);
      assert text[start..][..i - start] == text[start..i] && text[start..][i - start + 1..] == text[i + 1..];
      assert out + ([segment] + Segments(text[i + 1..])) == out + [segment] + Segments(text[i + 1..]);
    } else {
      assert text[start..i] == text[start..];
    }
  }

  /** `splitTopLevelTemplateArgs`; the source reports failure exactly on the empty list. */
  method SplitTopLevelTemplateArgs(text: string) returns (out: seq<string>)
    ensures out == SplitArgs(text)
  {
    hide Cut, Segments, Trim, Progress;
    out := [];
    var depth: nat := 0;
    var start: nat := 0;
    ProgressStart(text);
    for i := 0 to |text|
      invariant start <= i
      invariant Progress(text, out, start) && (text == "" ==> out == [])
      invariant Cut(text[start..], 0) == i - start + Cut(text[i..], depth)
    {
      CutStep(text, i, depth);
      if text[i] == '<' {
        depth := depth + 1;
        continue;
      }
      if text[i] == '>' {
        if depth > 0 {
          depth := depth - 1;
        }
        continue;
      }
      if text[i] == ',' && depth == 0 {
        var segment := Segment(text, start, i);
        PushSegment(text, out, start, i);
        out := out + [segment];
        start := i + 1;
      }
    }
    NothingLeft(text, depth);
    if text != "" {
      var segment := Segment(text, start, |text|);
      PushSegment(text, out, start, |text|);
      out := out + [segment];
    }
  }
}
