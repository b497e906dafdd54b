/** Insert mode: a session bound to an editor that collapses the active
    selections to insertion points according to its mode, then applies
    every keystroke at all of them at once, inside one batch. */
module Inserters {
  import opened Selections
  import opened Remap
  import opened Targets
  import opened Lines
  import opened Buffers
  import opened Editors
  import opened Filters

  /** How a session places its insertion points when it starts. */
  datatype Mode =
    | Insert
    | Append
    | Change
    | InsertAtLineBegin
    | AppendAtLineEnd
    | OpenLineBelow
    | OpenLineAbove

  /** The last position a selection covers, or its place when it is empty:
      the selection's end line is the line holding it. */
  function LastPos(x: Selection): (r: nat)
    ensures x.Begin() <= r <= x.End()
    ensures x.Begin() < x.End() ==> r + 1 == x.End()
  {
    if x.Begin() < x.End() then x.End() - 1 else x.End()
  }

  /** The insertion point a selection collapses to when a session starts in
      `mode`: its start, just past its end, the first non-blank column of its
      start line, the end of its end line, or the start of its start line.
      A Change session erases the text instead. */
  function Collapse(mode: Mode, buf: seq<char>, x: Selection): (r: Selection)
    requires x.End() <= |buf| && mode != Change
    ensures r.IsPoint() && r.End() <= |buf|
  {
    match mode
    case Insert => Point(x.Begin())
    case Append => Point(x.End())
    case InsertAtLineBegin => Point(FirstNonBlank(buf, x.Begin()))
    case AppendAtLineEnd => Point(LineEnd(buf, LastPos(x)))
    case OpenLineBelow => Point(LineEnd(buf, LastPos(x)))
    case OpenLineAbove => Point(LineStart(buf, x.Begin()))
  }

  function CollapseAll(mode: Mode, buf: seq<char>, l: seq<Selection>): (r: seq<Selection>)
    requires InBounds(l, |buf|) && mode != Change
    ensures |r| == |l| && InBounds(r, |buf|)
    ensures forall j :: 0 <= j < |r| ==> r[j].IsPoint()
  {
    seq(|l|, j requires 0 <= j < |l| => Collapse(mode, buf, l[j]))
  }

  /** The insertion points a session starting in `mode` types at, merged:
      one per selection, fewer where two selections collapse to one place. */
  function StartPoints(mode: Mode, buf: seq<char>, l: seq<Selection>): (r: seq<Selection>)
    requires InBounds(l, |buf|) && mode != Change
    ensures (|r| > 0 <==> |l| > 0) && Sorted(r) && InBounds(r, |buf|)
    ensures forall j :: 0 <= j < |r| ==> r[j].IsPoint()
  {
    var c := CollapseAll(mode, buf, l);
    NormalizeInBounds(c, |buf|);
    NormalizePoints(c);
    Normalize(c)
  }

  /** The stack with its active list collapsed to the insertion points of
      `mode`. */
  function Collapsed(mode: Mode, buf: seq<char>, st: Stack): (r: Stack)
    requires StackValid(st, |buf|) && mode != Change
    ensures StackValid(r, |buf|)
  {
    var P := StartPoints(mode, buf, st[|st| - 1]);
    SetTopValid(st, P, |buf|);
    SetTop(st, P)
  }

  /** A line break inserted at the start of every active selection. */
  ghost function OpenedLine(buf: seq<char>, st: Stack): (r: (seq<char>, Stack))
    requires StackValid(st, |buf|)
    ensures StackValid(r.1, |r.0|)
  {
    var P := st[|st| - 1];
    FitsOrdered(P, Starts(P), |buf|);
    EditedValid(st, Starts(P), 1, |buf|);
    (ReplaceEach(buf, Starts(P), "\n"), Edited(st, Starts(P), 1))
  }

  /** Opening a line is one pass that inserts a line break at every active
      point, and leaves the active list a list of points. */
  lemma OpenedLineIs(buf: seq<char>, st: Stack, A: seq<Selection>, top: nat, nl: seq<char>)
    requires StackValid(st, |buf|) && top == |st| - 1 && A == st[top] && nl == "\n" && AllPoints(A)
    ensures Ordered(Starts(A)) && Within(Starts(A), |buf|)
    ensures OpenedLine(buf, st).0 == ReplaceEach(buf, Starts(A), nl)
    ensures OpenedLine(buf, st).1 == Edited(st, Starts(A), |nl|)
    ensures |OpenedLine(buf, st).1| == |st|
    ensures forall j :: 0 <= j < |OpenedLine(buf, st).1[top]| ==> OpenedLine(buf, st).1[top][j].IsPoint()
  {
    assert A == st[|st| - 1];
    FitsOrdered(A, Starts(A), |buf|);
    assert |nl| == 1;
    InsertedPointsLand(A, nl);
    EditedTop(st, Starts(A), |nl|, top);
  }

  /** Starting a change is one pass that erases every active selection,
      and leaves the active list a list of points. */
  lemma ChangeStartIs(buf: seq<char>, st: Stack, A: seq<Selection>, top: nat)
    requires StackValid(st, |buf|) && top == |st| - 1 && A == st[top]
    ensures Ordered(Spans(A)) && Within(Spans(A), |buf|)
    ensures Started(Change, buf, st).0 == ReplaceEach(buf, Spans(A), [])
    ensures Started(Change, buf, st).1 == Edited(st, Spans(A), 0)
    ensures |Started(Change, buf, st).1| == |st|
    ensures forall j :: 0 <= j < |Started(Change, buf, st).1[top]| ==> Started(Change, buf, st).1[top][j].IsPoint()
  {
    assert A == st[|st| - 1];
    FitsOrdered(A, Spans(A), |buf|);
    ErasedArePoints(A);
    EditedTop(st, Spans(A), 0, top);
  }

  /** Every selection of `l` is a single position. */
  predicate AllPoints(l: seq<Selection>) {
    forall j :: 0 <= j < |l| ==> l[j].IsPoint()
  }

  /** The active list moved back by one position. */
  function SteppedBack(st: Stack, size: nat): (r: Stack)
    requires |st| > 0
    ensures StackValid(st, size) ==> StackValid(r, size)
  {
    var l := MoveAll(st[|st| - 1], -1, size);
    NormalizeInBounds(l, size);
    SetTop(st, Normalize(l))
  }

  /** The text and the stack once a session starting in `mode` has set up
      its insertion points. Change erases every selection; the open-line
      modes collapse to a line end or start and insert a line break there,
      and OpenLineAbove steps back onto the new, empty line; the other modes
      only collapse. */
  ghost function Started(mode: Mode, buf: seq<char>, st: Stack): (r: (seq<char>, Stack))
    requires StackValid(st, |buf|)
    ensures StackValid(r.1, |r.0|)
  {
    var A := st[|st| - 1];
    FitsOrdered(A, Spans(A), |buf|);
    EditedValid(st, Spans(A), 0, |buf|);
    if mode == Change then
      (ReplaceEach(buf, Spans(A), []), Edited(st, Spans(A), 0))
    else if mode == OpenLineBelow then
      OpenedLine(buf, Collapsed(mode, buf, st))
    else if mode == OpenLineAbove then
      var (text, E) := OpenedLine(buf, Collapsed(mode, buf, st));
      (text, SteppedBack(E, |text|))
    else (buf, Collapsed(mode, buf, st))
  }

  /** Every selection with its cursor moved by `offset`, clamped to the
      buffer; the anchors stay. */
  function MoveCursorsBy(l: seq<Selection>, offset: int, size: nat): (r: seq<Selection>)
    requires InBounds(l, size)
    ensures |r| == |l| && InBounds(r, size)
  {
    seq(|l|, j requires 0 <= j < |l| => Selection(l[j].anchor, Clamp(l[j].cursor + offset, size)))
  }

  /** Moving the cursors there and back, with no clamping on the way, puts
      every selection back where it was. */
  lemma MoveCursorsBack(l: seq<Selection>, offset: int, size: nat)
    requires InBounds(l, size)
    requires forall j :: 0 <= j < |l| ==> 0 <= l[j].cursor + offset <= size
    ensures MoveCursorsBy(MoveCursorsBy(l, offset, size), -offset, size) == l
  {
    var m := MoveCursorsBy(l, offset, size);
    forall j | 0 <= j < |l| ensures MoveCursorsBy(m, -offset, size)[j] == l[j] {
      assert m[j].cursor == l[j].cursor + offset;
      assert l[j].cursor <= l[j].End() <= size;
    }
  }

  /** Every selection collapsed to its cursor. */
  function CursorPoints(l: seq<Selection>, size: nat): (r: seq<Selection>)
    requires InBounds(l, size)
    ensures |r| == |l| && InBounds(r, size)
    ensures forall j :: 0 <= j < |r| ==> r[j].IsPoint()
  {
    seq(|l|, j requires 0 <= j < |l| => Point(l[j].cursor))
  }

  /** The points a session starts with are the places its mode names, one
      per selection, and in the same order, whenever no two selections
      collapse to the same place. */
  lemma StartPointsExact(mode: Mode, buf: seq<char>, l: seq<Selection>)
    requires InBounds(l, |buf|) && mode != Change
    requires forall i, j :: 0 <= i < j < |l| ==>
      Collapse(mode, buf, l[i]).Begin() < Collapse(mode, buf, l[j]).Begin()
    ensures StartPoints(mode, buf, l) == CollapseAll(mode, buf, l)
  {
    var c := CollapseAll(mode, buf, l);
    forall i, j | 0 <= i < j < |c| ensures Apart(c[i], c[j]) {
      assert c[i] == Collapse(mode, buf, l[i]) && c[j] == Collapse(mode, buf, l[j]);
    }
    NormalizeSorted(c);
  }

  /** A keystroke typed while every selection is an insertion point puts the
      text at each of them, with the points before it shifting the later
      ones, and leaves each point just past its copy. */
  lemma KeystrokeLands(buf: seq<char>, l: seq<Selection>, s: seq<char>, j: nat, q: nat)
    requires ValidList(l, |buf|) && j < |l| && q == l[j].Begin() + j * |s|
    requires forall i :: 0 <= i < |l| ==> l[i].IsPoint()
    ensures Cursors(l) == Starts(l) && Within(Cursors(l), |buf|)
    ensures q + |s| <= |ReplaceEach(buf, Cursors(l), s)|
    ensures ReplaceEach(buf, Cursors(l), s)[q..q + |s|] == s
    ensures |Normalize(MapList(l, Cursors(l), |s|))| == |l|
    ensures Normalize(MapList(l, Cursors(l), |s|))[j] == Point(q + |s|)
  {
    CursorsOfPoints(l);
    InsertedTextLands(buf, l, s, j, q);
    KeystrokePointLands(l, s, j, q);
  }

  /** After a keystroke at every insertion point, the j-th point sits just
      past the j-th copy of the text. */
  lemma KeystrokePointLands(l: seq<Selection>, s: seq<char>, j: nat, q: nat)
    requires Sorted(l) && j < |l| && q == l[j].Begin() + j * |s|
    requires forall i :: 0 <= i < |l| ==> l[i].IsPoint()
    ensures |Normalize(MapList(l, Starts(l), |s|))| == |l|
    ensures Normalize(MapList(l, Starts(l), |s|))[j] == Point(q + |s|)
  {
    InsertedPointsLand(l, s);
    var m := MapList(l, Starts(l), |s|);
    assert (j + 1) * |s| == j * |s| + |s|;
    assert m[j].IsPoint() && m[j].Begin() == q + |s|;
  }

  /** Each point an open-line session starts from is at the end of a line
      (OpenLineBelow) or at the start of one (OpenLineAbove). */
  lemma StartPointsOnLine(mode: Mode, buf: seq<char>, l: seq<Selection>, j: nat)
    requires InBounds(l, |buf|) && (mode == OpenLineBelow || mode == OpenLineAbove)
    requires j < |StartPoints(mode, buf, l)|
    ensures mode == OpenLineBelow ==> AtLineEnd(buf, StartPoints(mode, buf, l)[j].Begin())
    ensures mode == OpenLineAbove ==> AtLineStart(buf, StartPoints(mode, buf, l)[j].Begin())
  {
    var c := CollapseAll(mode, buf, l);
    var y := StartPoints(mode, buf, l)[j];
    NormalizeMade(c);
    assert y in Normalize(c);
    var z :| z in c && z.Begin() == y.Begin();
    var i :| 0 <= i < |c| && c[i] == z;
    CollapsedOnLine(mode, buf, l[i]);
  }

  lemma CollapsedOnLine(mode: Mode, buf: seq<char>, x: Selection)
    requires x.End() <= |buf| && (mode == OpenLineBelow || mode == OpenLineAbove)
    ensures mode == OpenLineBelow ==> AtLineEnd(buf, Collapse(mode, buf, x).Begin())
    ensures mode == OpenLineAbove ==> AtLineStart(buf, Collapse(mode, buf, x).Begin())
  {
  }

  /** Every selection of `l` begins on an empty line of `text`, stated
      one selection at a time (OnEmptyLinesEach gives the quantified form). */
  predicate OnEmptyLines(text: seq<char>, l: seq<Selection>)
    decreases |l|
  {
    |l| == 0 || (EmptyLineAt(text, l[0].Begin()) && OnEmptyLines(text, l[1..]))
  }

  lemma {:induction false} OnEmptyLinesEach(text: seq<char>, l: seq<Selection>)
    ensures OnEmptyLines(text, l) <==> forall j :: 0 <= j < |l| ==> EmptyLineAt(text, l[j].Begin())
    decreases |l|
  {
    if |l| > 0 {
      OnEmptyLinesEach(text, l[1..]);
      assert forall j :: 1 <= j < |l| ==> l[1..][j - 1] == l[j];
    }
  }

  /** An OpenLineBelow session starts with every insertion point alone on
      a new line, just past the line break inserted at the end of the line
      it was on. */
  lemma OpenedBelowEmpty(buf: seq<char>, st: Stack)
    requires StackValid(st, |buf|)
    ensures var (text, r) := Started(OpenLineBelow, buf, st);
            |r| > 0 && OnEmptyLines(text, r[|r| - 1])
  {
    var A := st[|st| - 1];
    var C := Collapsed(OpenLineBelow, buf, st);
    var P := C[|C| - 1];
    assert P == StartPoints(OpenLineBelow, buf, A);
    forall j | 0 <= j < |P| ensures AtLineEnd(buf, P[j].Begin()) {
      StartPointsOnLine(OpenLineBelow, buf, A, j);
    }
    FitsOrdered(P, Starts(P), |buf|);
    BreaksBelow(buf, P, "\n");
  }

  /** Line breaks inserted at points that each end a line leave each point,
      moved past its own break, on an empty line. */
  lemma BreaksBelow(buf: seq<char>, P: seq<Selection>, nl: seq<char>)
    requires ValidList(P, |buf|) && forall j :: 0 <= j < |P| ==> P[j].IsPoint()
    requires forall j :: 0 <= j < |P| ==> AtLineEnd(buf, P[j].Begin())
    requires |nl| == 1 && nl[0] == '\n'
    ensures Within(Starts(P), |buf|)
    ensures OnEmptyLines(ReplaceEach(buf, Starts(P), nl), Normalize(MapList(P, Starts(P), |nl|)))
  {
    var rs := Starts(P);
    FitsOrdered(P, rs, |buf|);
    var text := ReplaceEach(buf, rs, nl);
    var m := MapList(P, rs, |nl|);
    MapListInsertSorted(P, rs, |nl|);
    NormalizeSorted(m);
    StartsIncreasing(P);
    forall j | 0 <= j < |m| ensures EmptyLineAt(text, m[j].Begin()) {
      PointPastBreak(P, rs, m, j);
      assert AtLineEnd(buf, rs[j].lo);
      BreakAfter(buf, rs, nl, j);
    }
    OnEmptyLinesEach(text, m);
  }

  /** When the j-th insertion place ends a line, the position just past
      the j + 1 breaks inserted at or before it is on an empty line. */
  lemma BreakAfter(buf: seq<char>, rs: seq<Range>, nl: seq<char>, j: nat)
    requires Ordered(rs) && AllEmpty(rs) && Increasing(rs) && Within(rs, |buf|)
    requires j < |rs| && AtLineEnd(buf, rs[j].lo)
    requires |nl| == 1 && nl[0] == '\n'
    ensures EmptyLineAt(ReplaceEach(buf, rs, nl), rs[j].lo + j + 1)
  {
    CharsLand(buf, rs, nl, j);
    assert j + 1 < |rs| ==> rs[j].lo < rs[j + 1].lo;
  }

  /** A line break inserted at every point of a sorted list of points
      moves the j-th point past the j + 1 breaks at or before it. */
  lemma PointPastBreak(P: seq<Selection>, rs: seq<Range>, m: seq<Selection>, j: nat)
    requires Sorted(P) && j < |P| && forall i :: 0 <= i < |P| ==> P[i].IsPoint()
    requires rs == Starts(P) && m == MapList(P, rs, 1)
    ensures rs[j].lo == P[j].Begin()
    ensures m[j].IsPoint() && m[j].Begin() == rs[j].lo + j + 1
  {
    StartsIncreasing(P);
    InsertionLands(rs, 1, j);
    assert m[j] == MapSel(P[j], rs, 1);
  }

  /** In both open-line modes every insertion point is alone on an empty line. */
  lemma OpenedEmpty(mode: Mode, buf: seq<char>, st: Stack, text: seq<char>, r: Stack, A: seq<Selection>)
    requires StackValid(st, |buf|) && (text, r) == Started(mode, buf, st) && |r| > 0 && A == r[|r| - 1]
    requires mode == OpenLineBelow || mode == OpenLineAbove
    ensures OnEmptyLines(text, A)
  {
    if mode == OpenLineBelow {
      OpenedBelowEmpty(buf, st);
    } else if mode == OpenLineAbove {
      OpenedAboveEmpty(buf, st);
    }
  }

  /** Every mode but Change starts from the collapsed stack, with a line
      break opened at each point in the open-line modes and OpenLineAbove
      stepping back onto it. */
  lemma StartedWithoutChange(mode: Mode, buf: seq<char>, st: Stack, text: seq<char>, E: Stack)
    requires StackValid(st, |buf|) && mode != Change
    requires mode == OpenLineBelow || mode == OpenLineAbove ==> (text, E) == OpenedLine(buf, Collapsed(mode, buf, st))
    requires mode != OpenLineBelow && mode != OpenLineAbove ==> text == buf && E == Collapsed(mode, buf, st)
    ensures |E| > 0
    ensures Started(mode, buf, st) == (text, if mode == OpenLineAbove then SteppedBack(E, |text|) else E)
  {
  }

  /** An OpenLineAbove session starts with every insertion point alone on
      a new line, on the line break inserted at the start of the line it
      was on. */
  lemma OpenedAboveEmpty(buf: seq<char>, st: Stack)
    requires StackValid(st, |buf|)
    ensures var (text, r) := Started(OpenLineAbove, buf, st);
            |r| > 0 && OnEmptyLines(text, r[|r| - 1])
  {
    var A := st[|st| - 1];
    var C := Collapsed(OpenLineAbove, buf, st);
    var P := C[|C| - 1];
    assert P == StartPoints(OpenLineAbove, buf, A);
    forall j | 0 <= j < |P| ensures AtLineStart(buf, P[j].Begin()) {
      StartPointsOnLine(OpenLineAbove, buf, A, j);
    }
    FitsOrdered(P, Starts(P), |buf|);
    BreaksAbove(buf, P, "\n");
  }

  /** Line breaks inserted at points that each start a line, with every
      point then stepped back by one, leave each point on its own break,
      alone on a line. */
  lemma BreaksAbove(buf: seq<char>, P: seq<Selection>, nl: seq<char>)
    requires ValidList(P, |buf|) && forall j :: 0 <= j < |P| ==> P[j].IsPoint()
    requires forall j :: 0 <= j < |P| ==> AtLineStart(buf, P[j].Begin())
    requires |nl| == 1 && nl[0] == '\n'
    ensures Within(Starts(P), |buf|)
    ensures var text := ReplaceEach(buf, Starts(P), nl);
            OnEmptyLines(text, Normalize(MoveAll(Normalize(MapList(P, Starts(P), |nl|)), -1, |text|)))
  {
    var rs := Starts(P);
    FitsOrdered(P, rs, |buf|);
    var text := ReplaceEach(buf, rs, nl);
    var m := MapList(P, rs, |nl|);
    MapListInsertSorted(P, rs, |nl|);
    NormalizeSorted(m);
    BreaksBeforePoints(buf, P, rs, nl, text, m);
    MoveKeepsOrder(m, -1, |text|);
    SteppedOntoEmpty(text, m);
  }

  /** Line breaks inserted at points that each start a line: every point,
      moved past its own break, sits just past the start of an empty line. */
  lemma BreaksBeforePoints(buf: seq<char>, P: seq<Selection>, rs: seq<Range>, nl: seq<char>,
                           text: seq<char>, m: seq<Selection>)
    requires Sorted(P) && forall j :: 0 <= j < |P| ==> P[j].IsPoint()
    requires forall j :: 0 <= j < |P| ==> AtLineStart(buf, P[j].Begin())
    requires |nl| == 1 && nl[0] == '\n'
    requires rs == Starts(P) && Within(rs, |buf|)
    requires text == ReplaceEach(buf, rs, nl) && m == MapList(P, rs, 1)
    ensures forall j :: 0 <= j < |m| ==> 0 <= m[j].Begin() - 1 && m[j].End() - 1 <= |text|
    ensures forall j :: 0 <= j < |m| ==> EmptyLineAt(text, m[j].Begin() - 1)
  {
    StartsIncreasing(P);
    FitsOrdered(P, rs, |buf|);
    StartsAtLineStarts(buf, P, rs);
    PointsPastBreaks(P, rs, m);
    BreaksBeforeStarts(buf, rs, nl, text);
    PastEmptyLines(text, rs, m);
  }

  /** Points that each sit just past their own line break, on an empty
      line, are on that line once moved back by one. */
  lemma PastEmptyLines(text: seq<char>, rs: seq<Range>, m: seq<Selection>)
    requires |m| == |rs|
    requires forall j :: 0 <= j < |m| ==> m[j].IsPoint() && m[j].Begin() == rs[j].lo + j + 1
    requires forall j :: 0 <= j < |rs| ==> rs[j].lo + j < |text| && EmptyLineAt(text, rs[j].lo + j)
    ensures forall j :: 0 <= j < |m| ==> 0 <= m[j].Begin() - 1 && m[j].End() - 1 <= |text|
    ensures forall j :: 0 <= j < |m| ==> EmptyLineAt(text, m[j].Begin() - 1)
  {
    forall j | 0 <= j < |m|
      ensures 0 <= m[j].Begin() - 1 && m[j].End() - 1 <= |text|
      ensures EmptyLineAt(text, m[j].Begin() - 1)
    {
      PastEmptyLine(text, m[j], rs[j].lo + j);
    }
  }

  /** A point just past position `p` of an empty line is that line's point
      once moved back by one. */
  lemma PastEmptyLine(text: seq<char>, x: Selection, p: nat)
    requires x.IsPoint() && x.Begin() == p + 1 && p < |text| && EmptyLineAt(text, p)
    ensures 0 <= x.Begin() - 1 && x.End() - 1 <= |text|
    ensures EmptyLineAt(text, x.Begin() - 1)
  {
  }

  /** The empty ranges at the starts of selections that each start a line
      each start a line too. */
  lemma StartsAtLineStarts(buf: seq<char>, P: seq<Selection>, rs: seq<Range>)
    requires Sorted(P) && rs == Starts(P)
    requires forall j :: 0 <= j < |P| ==> AtLineStart(buf, P[j].Begin())
    ensures forall j :: 0 <= j < |rs| ==> AtLineStart(buf, rs[j].lo)
  {
    forall j | 0 <= j < |rs| ensures AtLineStart(buf, rs[j].lo) {
      assert rs[j].lo == P[j].Begin();
    }
  }

  /** Every point of a sorted list of points, moved by a line break
      inserted at each of them, stays a point just past its own break. */
  lemma PointsPastBreaks(P: seq<Selection>, rs: seq<Range>, m: seq<Selection>)
    requires Sorted(P) && forall i :: 0 <= i < |P| ==> P[i].IsPoint()
    requires rs == Starts(P) && m == MapList(P, rs, 1)
    ensures |m| == |rs|
    ensures forall j :: 0 <= j < |m| ==> m[j].IsPoint() && m[j].Begin() == rs[j].lo + j + 1
  {
    forall j | 0 <= j < |m| ensures m[j].IsPoint() && m[j].Begin() == rs[j].lo + j + 1 {
      PointPastBreak(P, rs, m, j);
    }
  }

  /** Line breaks inserted at places that each start a line: the j-th
      break, just past the j breaks before it, starts an empty line. */
  lemma BreaksBeforeStarts(buf: seq<char>, rs: seq<Range>, nl: seq<char>, text: seq<char>)
    requires Ordered(rs) && AllEmpty(rs) && Increasing(rs) && Within(rs, |buf|)
    requires forall j :: 0 <= j < |rs| ==> AtLineStart(buf, rs[j].lo)
    requires |nl| == 1 && nl[0] == '\n' && text == ReplaceEach(buf, rs, nl)
    ensures forall j :: 0 <= j < |rs| ==> rs[j].lo + j < |text| && EmptyLineAt(text, rs[j].lo + j)
  {
    forall j | 0 <= j < |rs| ensures rs[j].lo + j < |text| && EmptyLineAt(text, rs[j].lo + j) {
      BreakBefore(buf, rs, nl, j);
    }
  }

  /** Points that each sit just past the start of an empty line are on
      that line once moved back by one. */
  lemma SteppedOntoEmpty(text: seq<char>, m: seq<Selection>)
    requires forall j :: 0 <= j < |m| ==> 0 <= m[j].Begin() - 1 && m[j].End() - 1 <= |text|
    requires forall j :: 0 <= j < |m| ==> EmptyLineAt(text, m[j].Begin() - 1)
    ensures OnEmptyLines(text, MoveAll(m, -1, |text|))
  {
    var top := MoveAll(m, -1, |text|);
    forall j | 0 <= j < |top| ensures EmptyLineAt(text, top[j].Begin()) {
      MoveOne(m, -1, |text|, j);
    }
    OnEmptyLinesEach(text, top);
  }

  /** When the j-th insertion place starts a line, the j-th inserted
      break, just past the j breaks before it, is on an empty line. */
  lemma BreakBefore(buf: seq<char>, rs: seq<Range>, nl: seq<char>, j: nat)
    requires Ordered(rs) && AllEmpty(rs) && Increasing(rs) && Within(rs, |buf|)
    requires j < |rs| && AtLineStart(buf, rs[j].lo)
    requires |nl| == 1 && nl[0] == '\n'
    ensures rs[j].lo + j < |ReplaceEach(buf, rs, nl)|
    ensures EmptyLineAt(ReplaceEach(buf, rs, nl), rs[j].lo + j)
  {
    CharsLand(buf, rs, nl, j);
    assert j > 0 ==> rs[0].lo < rs[j].lo;
  }

  /** An insert-mode session over `editor`. */
  class IncrementalInserter {
    const editor: Editor
    const mode: Mode
    /** What every insert of the session typed, in order. */
    var captures: seq<seq<char>>
    /** Whether the session still runs; closing it ends its batch. */
    var open: bool
    /** The undo history when the session started. */
    ghost var startHistory: History

    /** While the session runs, its batch is open and no undo step has been
        committed since it started. */
    ghost predicate Valid()
      reads this, editor, editor.buffer
    {
      && editor.Valid()
      && (open ==> editor.batchLevel > 0 && editor.buffer.history == startHistory)
    }

    /** Opens a batch and sets up the insertion points for `mode`. */
    constructor(editor: Editor, mode: Mode)
      requires editor.Valid()
      modifies editor`stack, editor`batchLevel, editor`beginEvents, editor.buffer`content, editor.buffer`pending
      ensures Valid() && open && captures == []
      ensures this.editor == editor && this.mode == mode
      ensures startHistory == old(editor.buffer.history)
      ensures Prepared(editor, mode, old(StateOf(editor)))
    {
      this.editor := editor;
      this.mode := mode;
      captures := [];
      open := true;
      startHistory := editor.buffer.history;
      new;
      Prepare(editor, mode);
    }

    /** Types `s` at every cursor and records it. */
    method Insert(s: seq<char>)
      requires Valid() && open
      modifies this`captures, editor`stack, editor.buffer`content, editor.buffer`pending
      ensures Valid() && open
      ensures editor.buffer.pending == (old(editor.buffer.pending) || |s| > 0)
      ensures captures == old(captures) + [s]
      ensures editor.buffer.content == ReplaceEach(old(editor.buffer.content), Cursors(old(editor.Active())), s)
      ensures editor.stack == Edited(old(editor.stack), Cursors(old(editor.Active())), |s|)
    {
      FitsOrdered(editor.Active(), Cursors(editor.Active()), |editor.buffer.content|);
      CursorsChange(editor.Active(), |s|);
      editor.ApplyEdits(Cursors(editor.Active()), s);
      captures := captures + [s];
    }

    /** Types again, at every cursor, what the insert numbered `index`
        typed; refused when the session has no such insert. */
    method InsertCapture(index: nat) returns (ok: bool)
      requires Valid() && open
      modifies editor`stack, editor.buffer`content, editor.buffer`pending
      ensures Valid() && open
      ensures ok == (index < |captures|)
      ensures editor.buffer.pending == (old(editor.buffer.pending) || (ok && |captures[index]| > 0))
      ensures ok ==> editor.buffer.content == ReplaceEach(old(editor.buffer.content), Cursors(old(editor.Active())), captures[index])
                     && editor.stack == Edited(old(editor.stack), Cursors(old(editor.Active())), |captures[index]|)
      ensures !ok ==> editor.buffer.content == old(editor.buffer.content) && editor.stack == old(editor.stack)
    {
      ok := index < |captures|;
      if ok {
        FitsOrdered(editor.Active(), Cursors(editor.Active()), |editor.buffer.content|);
        CursorsChange(editor.Active(), |captures[index]|);
        editor.ApplyEdits(Cursors(editor.Active()), captures[index]);
      }
    }

    /** Deletes the character before every cursor, except where the cursor
        starts a line or the buffer; when every cursor does, nothing changes
        and the buffer is not marked modified. */
    method Erase()
      requires Valid() && open
      modifies editor`stack, editor.buffer`content, editor.buffer`pending
      ensures Valid() && open
      ensures editor.buffer.pending == (old(editor.buffer.pending) || Changes(Backspaces(old(editor.buffer.content), old(editor.Active())), 0))
      ensures var rs := Backspaces(old(editor.buffer.content), old(editor.Active()));
              && editor.buffer.content == ReplaceEach(old(editor.buffer.content), rs, [])
              && editor.stack == Edited(old(editor.stack), rs, 0)
    {
      var rs := Backspaces(editor.buffer.content, editor.Active());
      FitsOrdered(editor.Active(), rs, |editor.buffer.content|);
      editor.ApplyEdits(rs, []);
    }

    /** Moves every cursor by `offset`, clamped to the buffer, leaving the
        anchors; the list is merged again. */
    method MoveCursors(offset: int)
      requires Valid() && open
      modifies editor`stack
      ensures Valid() && open
      ensures editor.stack == SetTop(old(editor.stack),
                Normalize(MoveCursorsBy(old(editor.Active()), offset, |editor.buffer.content|)))
    {
      var size := |editor.buffer.content|;
      var moved := MoveCursorsBy(editor.Active(), offset, size);
      NormalizeInBounds(moved, size);
      SetTopValid(editor.stack, Normalize(moved), size);
      editor.stack := SetTop(editor.stack, Normalize(moved));
    }

    /** Ends the session: every selection collapses to its cursor and the
        batch closes; closing the outermost batch commits everything the
        session typed as a single undo step. */
    method Close()
      requires Valid() && open
      modifies this`open, editor`stack, editor`batchLevel, editor`endEvents,
               editor.buffer`history, editor.buffer`pending
      ensures Valid() && !open
      ensures editor.stack == SetTop(old(editor.stack),
                Normalize(CursorPoints(old(editor.Active()), |editor.buffer.content|)))
      ensures forall j :: 0 <= j < |editor.Active()| ==> editor.Active()[j].IsPoint()
      ensures editor.buffer.content == old(editor.buffer.content)
      ensures editor.batchLevel == old(editor.batchLevel) - 1
      ensures editor.batchLevel == 0 ==>
                !editor.buffer.pending
                && editor.buffer.history == (if old(editor.buffer.pending) then Commit(startHistory, editor.buffer.content)
                                             else startHistory)
    {
      var size := |editor.buffer.content|;
      var points := CursorPoints(editor.Active(), size);
      NormalizeInBounds(points, size);
      NormalizePoints(points);
      SetTopValid(editor.stack, Normalize(points), size);
      editor.stack := SetTop(editor.stack, Normalize(points));
      editor.EndBatch();
      open := false;
    }
  }

  /** Closing a session that opened the outermost batch and modified the
      buffer, then undoing, brings back the text the session started from. */
  method CloseThenUndo(session: IncrementalInserter) returns (done: bool)
    requires session.Valid() && session.open
    requires session.editor.batchLevel == 1 && session.editor.buffer.pending
    modifies session`open, session.editor, session.editor.buffer
    ensures session.editor.Valid() && done
    ensures session.editor.buffer.content == Text(session.startHistory)
  {
    var e := session.editor;
    session.Close();
    UndoAfterCommit(session.startHistory, e.buffer.content);
    done := e.Undo();
  }

  /** The part of an editor's state that setting up a session reads. */
  datatype Snapshot = Snapshot(content: seq<char>, stack: Stack, history: History,
                               batchLevel: nat, filters: seq<Filter>, pending: bool)

  function StateOf(editor: Editor): Snapshot
    reads editor, editor.buffer
  {
    Snapshot(editor.buffer.content, editor.stack, editor.buffer.history,
             editor.batchLevel, editor.filters, editor.buffer.pending)
  }

  /** What setting up a session leaves behind, from the state `before`:
      the editor stays valid, one batch deeper, with its filters and its
      history untouched (the history's text, when no batch was open, is
      the text it started from); the text and stack are those the mode
      starts from; every active selection is a point, alone on an empty
      line in the open-line modes; and the modes that only collapse leave
      the modified flag as it was. */
  ghost predicate Prepared(editor: Editor, mode: Mode, before: Snapshot)
    requires StackValid(before.stack, |before.content|)
    reads editor, editor.buffer
  {
    && editor.Valid()
    && editor.batchLevel == before.batchLevel + 1
    && editor.filters == before.filters
    && editor.buffer.history == before.history
    && (before.batchLevel == 0 ==> Text(editor.buffer.history) == before.content)
    && (editor.buffer.content, editor.stack) == Started(mode, before.content, before.stack)
    && (forall j :: 0 <= j < |editor.Active()| ==> editor.Active()[j].IsPoint())
    && (mode == OpenLineBelow || mode == OpenLineAbove ==> OnEmptyLines(editor.buffer.content, editor.Active()))
    && (mode != Change && mode != OpenLineBelow && mode != OpenLineAbove ==> editor.buffer.pending == before.pending)
  }

  /** What a session does when it starts: it opens its batch, then sets up
      its insertion points. */
  method Prepare(editor: Editor, mode: Mode)
    requires editor.Valid()
    modifies editor`stack, editor`batchLevel, editor`beginEvents, editor.buffer`content, editor.buffer`pending
    ensures Prepared(editor, mode, old(StateOf(editor)))
  {
    ghost var before := StateOf(editor);
    assert before.batchLevel == 0 ==> Text(before.history) == before.content;
    editor.BeginBatch();
    assert editor.buffer.content == before.content && editor.stack == before.stack;
    if mode == Change {
      PrepareChange(editor);
    } else {
      PrepareCollapse(editor, mode);
    }
  }

  method PrepareCollapse(editor: Editor, mode: Mode)
    requires editor.Valid() && editor.batchLevel > 0 && mode != Change
    modifies editor`stack, editor.buffer`content, editor.buffer`pending
    ensures editor.Valid()
    ensures (editor.buffer.content, editor.stack) == Started(mode, old(editor.buffer.content), old(editor.stack))
    ensures forall j :: 0 <= j < |editor.Active()| ==> editor.Active()[j].IsPoint()
    ensures mode == OpenLineBelow || mode == OpenLineAbove ==> OnEmptyLines(editor.buffer.content, editor.Active())
    ensures mode != OpenLineBelow && mode != OpenLineAbove ==> editor.buffer.pending == old(editor.buffer.pending)
  {
    if mode == OpenLineBelow || mode == OpenLineAbove {
      ghost var buf, st := editor.buffer.content, editor.stack;
      PrepareOpenLine(editor, mode);
      OpenedEmpty(mode, buf, st, editor.buffer.content, editor.stack, editor.Active());
    } else {
      ghost var buf, st := editor.buffer.content, editor.stack;
      CollapseActive(editor, mode);
      StartedWithoutChange(mode, buf, st, editor.buffer.content, editor.stack);
    }
  }

  /** The open-line modes collapse the active list, open a line at every
      point and, for OpenLineAbove, step back onto it. */
  method PrepareOpenLine(editor: Editor, mode: Mode)
    requires editor.Valid() && editor.batchLevel > 0
    requires mode == OpenLineBelow || mode == OpenLineAbove
    modifies editor`stack, editor.buffer`content, editor.buffer`pending
    ensures editor.Valid()
    ensures (editor.buffer.content, editor.stack) == Started(mode, old(editor.buffer.content), old(editor.stack))
    ensures forall j :: 0 <= j < |editor.Active()| ==> editor.Active()[j].IsPoint()
  {
    ghost var buf, st := editor.buffer.content, editor.stack;
    CollapseActive(editor, mode);
    OpenLine(editor);
    ghost var text, E := editor.buffer.content, editor.stack;
    if mode == OpenLineAbove {
      StepBack(editor);
    }
    assert (editor.buffer.content, editor.stack) == Started(mode, buf, st) by {
      StartedWithoutChange(mode, buf, st, text, E);
    }
  }

  method PrepareChange(editor: Editor)
    requires editor.Valid() && editor.batchLevel > 0
    modifies editor`stack, editor.buffer`content, editor.buffer`pending
    ensures editor.Valid()
    ensures (editor.buffer.content, editor.stack) == Started(Change, old(editor.buffer.content), old(editor.stack))
    ensures forall j :: 0 <= j < |editor.Active()| ==> editor.Active()[j].IsPoint()
  {
    ghost var buf, st := editor.buffer.content, editor.stack;
    ghost var A := st[|st| - 1];
    assert A == editor.Active();
    ChangeStartIs(buf, st, A, |st| - 1);
    editor.EraseNoUndo();
  }

  method CollapseActive(editor: Editor, mode: Mode)
    requires editor.Valid() && mode != Change
    modifies editor`stack
    ensures editor.Valid()
    ensures editor.stack == Collapsed(mode, editor.buffer.content, old(editor.stack))
    ensures forall j :: 0 <= j < |editor.Active()| ==> editor.Active()[j].IsPoint()
  {
    editor.stack := Collapsed(mode, editor.buffer.content, editor.stack);
  }

  method OpenLine(editor: Editor)
    requires editor.Valid() && editor.batchLevel > 0
    requires forall j :: 0 <= j < |editor.Active()| ==> editor.Active()[j].IsPoint()
    modifies editor`stack, editor.buffer`content, editor.buffer`pending
    ensures editor.Valid()
    ensures (editor.buffer.content, editor.stack) == OpenedLine(old(editor.buffer.content), old(editor.stack))
    ensures forall j :: 0 <= j < |editor.Active()| ==> editor.Active()[j].IsPoint()
  {
    var nl := "\n";
    ghost var buf, st := editor.buffer.content, editor.stack;
    ghost var A := st[|st| - 1];
    assert A == editor.Active() && AllPoints(A);
    OpenedLineIs(buf, st, A, |st| - 1, nl);
    editor.InsertNoUndo(nl);
  }

  method StepBack(editor: Editor)
    requires editor.Valid()
    requires forall j :: 0 <= j < |editor.Active()| ==> editor.Active()[j].IsPoint()
    modifies editor`stack
    ensures editor.Valid()
    ensures editor.stack == SteppedBack(old(editor.stack), |editor.buffer.content|)
    ensures forall j :: 0 <= j < |editor.Active()| ==> editor.Active()[j].IsPoint()
  {
    NormalizePoints(MoveAll(editor.Active(), -1, |editor.buffer.content|));
    editor.MoveSelections(-1, false);
  }
}
