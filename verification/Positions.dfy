/** Flattened text made of pieces of source files, and positions in it. */
module Positions {
  datatype Cursor = Cursor(line: int, column: int)

  const ORIGIN := Cursor(1, 1)
  const NOWHERE := Cursor(0, 0)

  /** Where a cursor is behind a text. */
  function Advance(c: Cursor, text: string): Cursor {
    if text == "" then c
    else
      var b := Advance(c, text[..|text| - 1]);
      if text[|text| - 1] == '\n' then Cursor(b.line + 1, 1) else Cursor(b.line, b.column + 1)
  }

  /** `sourceCursorAt`. */
  function CursorAt(source: string, offset: nat): Cursor {
    Advance(ORIGIN, source[..if offset < |source| then offset else |source|])
  }

  predicate Before(a: Cursor, b: Cursor) { a.line < b.line || (a.line == b.line && a.column < b.column) }

  lemma {:induction false} AdvanceConcat(c: Cursor, s: string, t: string)
    ensures Advance(c, s + t) == Advance(Advance(c, s), t)
    decreases |t|
  {
    if t == "" {
      assert s + t == s;
    } else {
      assert (s + t)[..|s + t| - 1] == s + t[..|t| - 1];
      AdvanceConcat(c, s, t[..|t| - 1]);
    }
  }

  lemma {:induction false} AdvanceForward(c: Cursor, t: string)
    requires c.column >= 1
    ensures Advance(c, t).column >= 1 && Advance(c, t).line >= c.line
    ensures t != "" ==> Before(c, Advance(c, t))
  {
    if t != "" {
      AdvanceForward(c, t[..|t| - 1]);
    }
  }

  /** Behind the same text two cursors are apart as before: on the first line by line and
      column, on later lines by line alone. */
  lemma {:induction false} AdvanceShift(c: Cursor, d: Cursor, t: string)
    ensures Advance(c, t).line - c.line == Advance(d, t).line - d.line >= 0
    ensures Advance(c, t).line == c.line ==> Advance(c, t).column - c.column == Advance(d, t).column - d.column
    ensures Advance(c, t).line > c.line ==> Advance(c, t).column == Advance(d, t).column
  {
    if t != "" {
      AdvanceShift(c, d, t[..|t| - 1]);
    }
  }

  // ----- pieces, and the segments that record them -----

  /** A stretch of text some unit contributed, and where it stood in that unit. */
  datatype Piece = Piece(unit: nat, text: string, original: Cursor)

  datatype Segment = Segment(unit: nat, start: Cursor, end: Cursor, original: Cursor)

  function LogText(log: seq<Piece>): string {
    if log == [] then "" else LogText(log[..|log| - 1]) + log[|log| - 1].text
  }

  function Offset(log: seq<Piece>, k: nat): nat
    requires k <= |log|
  {
    |LogText(log[..k])|
  }

  /** The position of a character of the flattened text. */
  function Point(log: seq<Piece>, o: nat): Cursor
    requires o <= |LogText(log)|
  {
    Advance(ORIGIN, LogText(log)[..o])
  }

  function SegmentOf(log: seq<Piece>, k: nat): Segment
    requires k < |log|
  {
    Segment(log[k].unit, Advance(ORIGIN, LogText(log[..k])), Advance(ORIGIN, LogText(log[..k + 1])), log[k].original)
  }

  function Segments(log: seq<Piece>): (r: seq<Segment>)
    ensures |r| == |log|
  {
    if log == [] then [] else Segments(log[..|log| - 1]) + [SegmentOf(log, |log| - 1)]
  }

  predicate NoEmptyPiece(log: seq<Piece>) { forall k :: 0 <= k < |log| ==> log[k].text != "" }

  lemma {:induction false} SegmentAt(log: seq<Piece>, k: nat)
    requires k < |log|
    ensures Segments(log)[k] == SegmentOf(log, k)
    decreases |log|
  {
    hide LogText, Advance;
    if k < |log| - 1 {
      SegmentAt(log[..|log| - 1], k);
      assert log[..|log| - 1][..k] == log[..k] && log[..|log| - 1][..k + 1] == log[..k + 1];
    }
  }

  /** The text of a prefix of the log is a prefix of the text. */
  lemma {:induction false} LogPrefix(log: seq<Piece>, k: nat)
    requires k <= |log|
    ensures Offset(log, k) <= |LogText(log)| && LogText(log)[..Offset(log, k)] == LogText(log[..k])
    decreases |log|
  {
    if k == |log| {
      assert log[..k] == log;
    } else {
      LogPrefix(log[..|log| - 1], k);
      assert log[..|log| - 1][..k] == log[..k];
    }
  }

  lemma {:induction false} LogPush(log: seq<Piece>, k: nat)
    requires k < |log|
    ensures LogText(log[..k + 1]) == LogText(log[..k]) + log[k].text
    ensures Offset(log, k + 1) == Offset(log, k) + |log[k].text|
  {
    assert log[..k + 1][..k] == log[..k];
  }

  lemma {:induction false} OffsetsAscend(log: seq<Piece>, j: nat, k: nat)
    requires j <= k <= |log|
    ensures Offset(log, j) <= Offset(log, k)
  {
    LogPrefix(log[..k], j);
    assert log[..k][..j] == log[..j];
  }

  /** Later characters have later positions. */
  lemma {:induction false} PointsAscend(log: seq<Piece>, o: nat, q: nat)
    requires o < q <= |LogText(log)|
    ensures Before(Point(log, o), Point(log, q))
  {
    hide LogText, Advance;
    var text := LogText(log);
    AdvanceConcat(ORIGIN, text[..o], text[o..q]);
    assert text[..o] + text[o..q] == text[..q];
    AdvanceForward(ORIGIN, text[..o]);
    AdvanceForward(Point(log, o), text[o..q]);
  }

  /** A segment begins and ends at the positions of its piece's bounds. */
  lemma {:induction false} SegmentBounds(log: seq<Piece>, k: nat)
    requires k < |log|
    ensures Offset(log, k) <= Offset(log, k + 1) <= |LogText(log)|
    ensures SegmentOf(log, k).start == Point(log, Offset(log, k))
    ensures SegmentOf(log, k).end == Point(log, Offset(log, k + 1))
  {
    hide LogText, Advance;
    LogPrefix(log, k);
    LogPrefix(log, k + 1);
    OffsetsAscend(log, k, k + 1);
  }

  /** The segments tile the flattened text: the first begins where the text does, each next
      one where the one before it ends, none is empty, and the last ends where the text does. */
  lemma {:induction false} SegmentsTile(log: seq<Piece>)
    requires NoEmptyPiece(log)
    ensures var s := Segments(log);
            && (s != [] ==> s[0].start == ORIGIN && s[|s| - 1].end == Advance(ORIGIN, LogText(log)))
            && (forall k :: 0 <= k < |s| ==> Before(s[k].start, s[k].end))
            && (forall k :: 0 < k < |s| ==> s[k - 1].end == s[k].start)
  {
    hide Segments, Advance;
    var s := Segments(log);
    forall k | 0 <= k < |s|
      ensures Before(s[k].start, s[k].end)
      ensures s[k] == SegmentOf(log, k)
    {
      SegmentAt(log, k);
      SegmentBounds(log, k);
      LogPush(log, k);
      PointsAscend(log, Offset(log, k), Offset(log, k + 1));
    }
    forall k | 0 < k < |s|
      ensures s[k - 1].end == s[k].start
    {
      assert s[k - 1] == SegmentOf(log, k - 1);
    }
    if s != [] {
      assert log[..0] == [] && log[..|log|] == log;
      EmptyAdvance(ORIGIN);
    }
  }

  lemma {:induction false} EmptyAdvance(c: Cursor)
    ensures Advance(c, "") == c
  {
  }

  // ----- looking a position up -----

  predicate Contains(s: Segment, p: Cursor) { !Before(p, s.start) && Before(p, s.end) }

  /** `mapLocationWithinSegment`. */
  function MapLocation(s: Segment, p: Cursor): Cursor {
    var column := if p.line == s.start.line then s.original.column + (p.column - s.start.column) else p.column;
    Cursor(s.original.line + (p.line - s.start.line), if column <= 0 then 1 else column)
  }

  /** A character's position lies in exactly the segment of its piece. */
  lemma {:induction false} PointLiesInItsSegment(log: seq<Piece>, k: nat, o: nat)
    requires k < |log| && o < |LogText(log)|
    ensures Contains(Segments(log)[k], Point(log, o)) <==> Offset(log, k) <= o < Offset(log, k + 1)
  {
    hide LogText, Advance, Segments;
    SegmentAt(log, k);
    SegmentBounds(log, k);
    var a, b := Offset(log, k), Offset(log, k + 1);
    if o < a {
      PointsAscend(log, o, a);
    } else if a < o {
      PointsAscend(log, a, o);
    }
    if o < b {
      PointsAscend(log, o, b);
    } else if b < o {
      PointsAscend(log, b, o);
    }
  }

  /** The piece is the stretch of `source` from `start` on, with the cursor that belongs to it. */
  predicate IsSlice(piece: Piece, source: string, start: nat) {
    && start + |piece.text| <= |source|
    && source[start..start + |piece.text|] == piece.text
    && piece.original == CursorAt(source, start)
  }

  lemma {:induction false} SlicePrefix(piece: Piece, source: string, start: nat, n: nat)
    requires IsSlice(piece, source, start) && n <= |piece.text|
    ensures start + n <= |source| && source[start..start + n] == piece.text[..n]
    ensures piece.original == CursorAt(source, start)
  {
    hide CursorAt;
    assert source[start..start + n] == source[start..start + |piece.text|][..n];
  }

  /** The cursor a text further on. */
  lemma {:induction false} CursorGoesOn(source: string, start: nat, t: string)
    requires start + |t| <= |source| && source[start..start + |t|] == t
    ensures CursorAt(source, start + |t|) == Advance(CursorAt(source, start), t)
    ensures CursorAt(source, start + |t|).column >= 1
  {
    hide Advance;
    AdvanceConcat(ORIGIN, source[..start], t);
    assert source[..start] + t == source[..start + |t|];
    AdvanceForward(ORIGIN, source[..start + |t|]);
  }

  lemma {:induction false} LocationIsRecovered(s: Segment, source: string, start: nat, t: string)
    requires start + |t| <= |source| && source[start..start + |t|] == t
    requires s.original == CursorAt(source, start) && s.start.column >= 1
    ensures MapLocation(s, Advance(s.start, t)) == CursorAt(source, start + |t|)
  {
    hide Advance, CursorAt;
    CursorGoesOn(source, start, t);
    AdvanceShift(s.start, s.original, t);
  }

  /** For every character of a piece cut from a source file, the recorded segment leads from its
      place in the flattened text back to its place in the file. */
  lemma {:induction false} PositionsAreExact(log: seq<Piece>, k: nat, o: nat, source: string, start: nat)
    requires k < |log| && IsSlice(log[k], source, start)
    requires Offset(log, k) <= o < Offset(log, k + 1) && o <= |LogText(log)|
    ensures MapLocation(Segments(log)[k], Point(log, o)) == CursorAt(source, start + (o - Offset(log, k)))
  {
    hide LogText, Advance, Segments, MapLocation, CursorAt, IsSlice;
    SegmentAt(log, k);
    var a := Offset(log, k);
    var head := LogText(log[..k]);
    PointInPiece(log, k, o);
    var t := log[k].text[..o - a];
    AdvanceConcat(ORIGIN, head, t);
    AdvanceForward(ORIGIN, head);
    SlicePrefix(log[k], source, start, |t|);
    LocationIsRecovered(SegmentOf(log, k), source, start, t);
  }

  lemma {:induction false} PointInPiece(log: seq<Piece>, k: nat, o: nat)
    requires k < |log| && Offset(log, k) <= o < Offset(log, k + 1) && o <= |LogText(log)|
    ensures o - Offset(log, k) <= |log[k].text|
    ensures LogText(log)[..o] == LogText(log[..k]) + log[k].text[..o - Offset(log, k)]
  {
    hide LogText;
    LogPush(log, k);
    LogPrefix(log, k + 1);
    var both := LogText(log[..k + 1]);
    assert LogText(log)[..o] == both[..o];
    assert both == LogText(log[..k]) + log[k].text;
  }
}
