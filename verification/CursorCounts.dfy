/** Cursors as counts of line breaks and characters. */
module CursorCounts {
  import opened Positions

  lemma {:induction false} BreaksPush(s: string, c: char)
    ensures multiset(s + [c])['\n'] == multiset(s)['\n'] + (if c == '\n' then 1 else 0)
  {
  }

  lemma {:induction false} LineIsCounted(s: string)
    ensures Advance(ORIGIN, s).line == 1 + multiset(s)['\n']
  {
    if s != "" {
      var n := |s| - 1;
      LineIsCounted(s[..n]);
      BreaksPush(s[..n], s[n]);
      assert s == s[..n] + [s[n]];
    }
  }

  lemma {:induction false} ColumnIsCounted(s: string, start: nat)
    requires start <= |s| && (start == 0 || s[start - 1] == '\n') && '\n' !in s[start..]
    ensures Advance(ORIGIN, s).column == 1 + (|s| - start)
  {
    if |s| > start {
      var n := |s| - 1;
      assert s[start..][n - start] == s[n] && forall c :: c in s[..n][start..] ==> c in s[start..];
      ColumnIsCounted(s[..n], start);
    }
  }

  /** The line of an offset is one more than the line breaks before it, and its column one more
      than the characters behind the last of them, or behind the beginning if there is none. */
  lemma {:induction false} CursorIsCounted(source: string, offset: nat, start: nat)
    requires start <= offset <= |source| && (start == 0 || source[start - 1] == '\n') && '\n' !in source[start..offset]
    ensures CursorAt(source, offset) == Cursor(1 + multiset(source[..offset])['\n'], 1 + (offset - start))
  {
    hide Advance;
    LineIsCounted(source[..offset]);
    assert source[..offset][start..] == source[start..offset];
    ColumnIsCounted(source[..offset], start);
  }

  /** Past the end the cursor is that of the end. */
  lemma {:induction false} CursorStaysAtEnd(source: string, offset: nat)
    requires offset >= |source|
    ensures CursorAt(source, offset) == CursorAt(source, |source|)
  {
  }

  /** Text that stands nowhere has line 0 at its first line, and its columns begin at 1 and count
      from the second character on. */
  lemma {:induction false} GeneratedTextHasNoLine(s: Segment, p: Cursor)
    requires s.original == Cursor(0, 0) && p.column >= 1
    ensures MapLocation(s, s.start) == Cursor(0, 1)
    ensures p.line == s.start.line && p.column > s.start.column ==> MapLocation(s, p) == Cursor(0, p.column - s.start.column)
    ensures p.line != s.start.line ==> MapLocation(s, p) == Cursor(p.line - s.start.line, p.column)
  {
  }
}
