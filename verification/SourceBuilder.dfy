/** The builder of flattened text with its tables of units and segments. */
module SourceBuilder {
  import opened Positions

  datatype Kind = Primary | Import | Stdlib | Generated | Unknown

  /** What a unit is created with. */
  datatype Header = Header(kind: Kind, path: string, moduleKey: string, original: Cursor)

  datatype Unit = Unit(id: nat, header: Header, start: Cursor, end: Cursor)

  function Heads(units: seq<Unit>): (r: seq<Header>)
    ensures |r| == |units|
  {
    if units == [] then [] else Heads(units[..|units| - 1]) + [units[|units| - 1].header]
  }

  lemma {:induction false} HeadsKept(units: seq<Unit>, u: nat, unit: Unit)
    requires u < |units| && unit.header == units[u].header
    ensures Heads(units[u := unit]) == Heads(units)
    decreases |units|
  {
    var n := |units| - 1;
    var changed := units[u := unit];
    if u == n {
      assert changed[..n] == units[..n];
    } else {
      HeadsKept(units[..n], u, unit);
      assert changed[..n] == units[..n][u := unit];
    }
  }

  // ----- the range of a unit -----

  predicate Occurs(segments: seq<Segment>, u: nat) { exists i :: 0 <= i < |segments| && segments[i].unit == u }

  /** The unit's earliest start. */
  predicate IsStart(segments: seq<Segment>, u: nat, c: Cursor) {
    && (exists i :: 0 <= i < |segments| && segments[i].unit == u && segments[i].start == c)
    && (forall i :: 0 <= i < |segments| && segments[i].unit == u ==> !Before(segments[i].start, c))
  }

  /** The unit's latest end. */
  predicate IsEnd(segments: seq<Segment>, u: nat, c: Cursor) {
    && (exists i :: 0 <= i < |segments| && segments[i].unit == u && segments[i].end == c)
    && (forall i :: 0 <= i < |segments| && segments[i].unit == u ==> !Before(c, segments[i].end))
  }

  /** The range spans the unit's segments and no more; a unit without segments has none. */
  predicate IsHull(segments: seq<Segment>, u: nat, start: Cursor, end: Cursor) {
    if Occurs(segments, u) then IsStart(segments, u, start) && IsEnd(segments, u, end)
    else start == NOWHERE && end == NOWHERE
  }

  /** `updateUnitRange`. */
  function Widen(unit: Unit, s: Segment): Unit {
    unit.(start := if unit.start.line == 0 || Before(s.start, unit.start) then s.start else unit.start,
          end := if unit.end.line == 0 || Before(unit.end, s.end) then s.end else unit.end)
  }

  /** All lines are counted from 1, so that line 0 marks a missing range. */
  predicate LinesArePositive(segments: seq<Segment>) {
    forall i :: 0 <= i < |segments| ==> segments[i].start.line >= 1 && segments[i].end.line >= 1
  }

  lemma {:induction false} StartWidens(segments: seq<Segment>, u: nat, c: Cursor, s: Segment)
    requires IsStart(segments, u, c) && s.unit == u
    ensures IsStart(segments + [s], u, if Before(s.start, c) then s.start else c)
  {
    var all := segments + [s];
    assert all[|segments|] == s;
    var i :| 0 <= i < |segments| && segments[i].unit == u && segments[i].start == c;
    assert all[i] == segments[i];
  }

  lemma {:induction false} EndWidens(segments: seq<Segment>, u: nat, c: Cursor, s: Segment)
    requires IsEnd(segments, u, c) && s.unit == u
    ensures IsEnd(segments + [s], u, if Before(c, s.end) then s.end else c)
  {
    var all := segments + [s];
    assert all[|segments|] == s;
    var i :| 0 <= i < |segments| && segments[i].unit == u && segments[i].end == c;
    assert all[i] == segments[i];
  }

  lemma {:induction false} HullWidens(segments: seq<Segment>, unit: Unit, s: Segment)
    requires LinesArePositive(segments) && IsHull(segments, s.unit, unit.start, unit.end)
    ensures var w := Widen(unit, s); IsHull(segments + [s], s.unit, w.start, w.end)
  {
    var all := segments + [s];
    assert all[|segments|] == s;
    if Occurs(segments, s.unit) {
      StartWidens(segments, s.unit, unit.start, s);
      EndWidens(segments, s.unit, unit.end, s);
    }
  }

  lemma {:induction false} HullStays(segments: seq<Segment>, u: nat, start: Cursor, end: Cursor, s: Segment)
    requires IsHull(segments, u, start, end) && s.unit != u
    ensures IsHull(segments + [s], u, start, end)
  {
    var all := segments + [s];
    assert forall i :: 0 <= i < |segments| ==> all[i] == segments[i];
    if Occurs(segments, u) {
      var i :| 0 <= i < |segments| && segments[i].unit == u && segments[i].start == start;
      assert all[i].unit == u && all[i].start == start;
      var j :| 0 <= j < |segments| && segments[j].unit == u && segments[j].end == end;
      assert all[j].unit == u && all[j].end == end;
    }
  }

  predicate HullsOk(units: seq<Unit>, segments: seq<Segment>) {
    forall u :: 0 <= u < |units| ==> IsHull(segments, u, units[u].start, units[u].end)
  }

  lemma {:induction false} HullsKept(units: seq<Unit>, segments: seq<Segment>, s: Segment)
    requires HullsOk(units, segments) && LinesArePositive(segments) && s.unit < |units|
    ensures HullsOk(units[s.unit := Widen(units[s.unit], s)], segments + [s])
  {
    hide IsHull, Widen;
    var changed := units[s.unit := Widen(units[s.unit], s)];
    forall u | 0 <= u < |changed|
      ensures IsHull(segments + [s], u, changed[u].start, changed[u].end)
    {
      if u == s.unit {
        HullWidens(segments, units[u], s);
      } else {
        HullStays(segments, u, units[u].start, units[u].end, s);
      }
    }
  }

  lemma {:induction false} SegmentsArePositive(log: seq<Piece>)
    ensures LinesArePositive(Segments(log))
  {
    hide Segments, Advance, LogText;
    forall k | 0 <= k < |log|
      ensures Segments(log)[k].start.line >= 1 && Segments(log)[k].end.line >= 1
    {
      SegmentAt(log, k);
      AdvanceForward(ORIGIN, LogText(log[..k]));
      AdvanceForward(ORIGIN, LogText(log[..k + 1]));
    }
  }

  lemma {:induction false} PushPiece(log: seq<Piece>, piece: Piece)
    ensures LogText(log + [piece]) == LogText(log) + piece.text
    ensures Segments(log + [piece]) == Segments(log) + [SegmentOf(log + [piece], |log|)]
    ensures Advance(ORIGIN, LogText(log + [piece])) == Advance(Advance(ORIGIN, LogText(log)), piece.text)
    ensures SegmentOf(log + [piece], |log|) ==
            Segment(piece.unit, Advance(ORIGIN, LogText(log)), Advance(ORIGIN, LogText(log + [piece])), piece.original)
  {
    hide Advance;
    assert (log + [piece])[..|log|] == log && (log + [piece])[..|log| + 1] == log + [piece];
    AdvanceConcat(ORIGIN, LogText(log), piece.text);
  }

  predicate UnitsExist(log: seq<Piece>, count: nat) { forall k :: 0 <= k < |log| ==> log[k].unit < count }

  predicate IdsOk(units: seq<Unit>) { forall u :: 0 <= u < |units| ==> units[u].id == u }

  /** The tables are those of the log; every range is the hull of its unit's segments. */
  ghost predicate AreTables(text: string, units: seq<Unit>, segments: seq<Segment>, log: seq<Piece>) {
    && text == LogText(log)
    && segments == Segments(log)
    && NoEmptyPiece(log)
    && UnitsExist(log, |units|)
    && IdsOk(units)
    && HullsOk(units, segments)
  }

  lemma {:induction false} NoTables()
    ensures AreTables("", [], [], [])
  {
  }

  /** `cursorAfter`. */
  method CursorAfter(text: string) returns (cursor: Cursor)
    ensures cursor == Advance(ORIGIN, text)
  {
    cursor := ORIGIN;
    for i := 0 to |text|
      invariant cursor == Advance(ORIGIN, text[..i])
    {
      assert text[..i + 1][..i] == text[..i];
      if text[i] == '\n' {
        cursor := Cursor(cursor.line + 1, 1);
      } else {
        cursor := Cursor(cursor.line, cursor.column + 1);
      }
    }
    assert text[..|text|] == text;
  }

  class ExpandedSourceBuilder {
    var text: string
    var units: seq<Unit>
    var segments: seq<Segment>
    var cursor: Cursor
    /** The pieces appended so far. */
    ghost var log: seq<Piece>

    ghost predicate Valid()
      reads this
    {
      AreTables(text, units, segments, log) && cursor == Advance(ORIGIN, text)
    }

    /** A builder goes on where the tables it is given end; they may be empty. */
    constructor (text: string, units: seq<Unit>, segments: seq<Segment>, ghost log: seq<Piece>)
      requires AreTables(text, units, segments, log)
      ensures Valid() && this.log == log && this.units == units
    {
      var after := CursorAfter(text);
      this.text := text;
      this.units := units;
      this.segments := segments;
      cursor := after;
      this.log := log;
    }

    method AddUnit(header: Header) returns (id: nat)
      requires Valid()
      modifies this`units
      ensures Valid() && id == |old(units)| && Heads(units) == Heads(old(units)) + [header]
      ensures units[..id] == old(units)
    {
      hide LogText, Segments, Advance;
      id := |units|;
      ghost var was := units;
      units := units + [Unit(id, header, NOWHERE, NOWHERE)];
      assert units[..id] == was;
      assert !Occurs(segments, id) by { SegmentUnits(log, id); }
    }

    /** `advance`. */
    method AdvanceCursor(more: string)
      modifies this`cursor
      ensures cursor == Advance(old(cursor), more)
    {
      for i := 0 to |more|
        invariant cursor == Advance(old(cursor), more[..i])
      {
        assert more[..i + 1][..i] == more[..i];
        if more[i] == '\n' {
          cursor := Cursor(cursor.line + 1, 1);
        } else {
          cursor := Cursor(cursor.line, cursor.column + 1);
        }
      }
      assert more[..|more|] == more;
    }

    /** An empty text and an unknown unit are ignored. */
    method AppendSegment(unit: nat, more: string, original: Cursor)
      requires Valid()
      modifies this
      ensures Valid() && Heads(units) == Heads(old(units))
      ensures log == if more == "" || unit >= |old(units)| then old(log) else old(log) + [Piece(unit, more, original)]
    {
      hide LogText, Segments, Advance, IsHull;
      if more == "" || unit >= |units| {
        return;
      }
      ghost var piece := Piece(unit, more, original);
      PushPiece(log, piece);
      SegmentsArePositive(log);
      var start := cursor;
      text := text + more;
      AdvanceCursor(more);
      var s := Segment(unit, start, cursor, original);
      HullsKept(units, segments, s);
      HeadsKept(units, unit, Widen(units[unit], s));
      segments := segments + [s];
      units := units[unit := Widen(units[unit], s)];
      log := log + [piece];
    }

    method AppendGenerated(more: string, moduleKey: string) returns (id: nat)
      requires Valid()
      modifies this
      ensures Valid() && id == |old(units)|
      ensures Heads(units) == Heads(old(units)) + [Header(Generated, "", moduleKey, NOWHERE)]
      ensures log == if more == "" then old(log) else old(log) + [Piece(id, more, NOWHERE)]
    {
      id := AddUnit(Header(Generated, "", moduleKey, NOWHERE));
      AppendSegment(id, more, NOWHERE);
    }

    function TextEndsWithNewline(): bool
      reads this
    {
      text != "" && text[|text| - 1] == '\n'
    }
  }

  lemma {:induction false} SegmentUnits(log: seq<Piece>, u: nat)
    requires UnitsExist(log, u)
    ensures !Occurs(Segments(log), u)
  {
    hide LogText, Segments, Advance;
    forall k | 0 <= k < |log|
      ensures Segments(log)[k].unit != u
    {
      SegmentAt(log, k);
    }
  }
}
