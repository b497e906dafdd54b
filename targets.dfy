/** Where each editing verb edits: one range of the buffer per selection of
    the active list, in the list's order. */
module Targets {
  import opened Selections
  import opened Remap

  /** `rs` has one range per selection, the j-th ending within the j-th
      selection and starting after the end of the one before it. */
  predicate Fits(l: seq<Selection>, rs: seq<Range>) {
    && |rs| == |l|
    && (forall j :: 0 <= j < |rs| ==> rs[j].lo <= rs[j].hi <= l[j].End())
    && (forall j :: 0 < j < |rs| ==> l[j - 1].End() <= rs[j].lo)
  }

  /** Ranges that fit a sorted list are ordered, and within the buffer
      when the list is. */
  lemma FitsOrdered(l: seq<Selection>, rs: seq<Range>, size: nat)
    requires Sorted(l) && Fits(l, rs)
    ensures Ordered(rs)
    ensures InBounds(l, size) ==> Within(rs, size)
  {
    forall i, j | 0 <= i < j < |rs| ensures rs[i].hi <= rs[j].lo {
      if i < j - 1 {
        assert Apart(l[i], l[j - 1]);
      }
    }
  }

  /** Empty ranges at every selection's start, where insert puts its text. */
  function Starts(l: seq<Selection>): (rs: seq<Range>)
    requires Sorted(l)
    ensures Fits(l, rs) && Ordered(rs)
  {
    var rs := seq(|l|, j requires 0 <= j < |l| => Range(l[j].Begin(), l[j].Begin()));
    FitsOrdered(l, rs, 0);
    rs
  }

  /** Empty ranges just past every selection's end, where append puts its text. */
  function Ends(l: seq<Selection>): (rs: seq<Range>)
    requires Sorted(l)
    ensures Fits(l, rs) && Ordered(rs)
  {
    var rs := seq(|l|, j requires 0 <= j < |l| => Range(l[j].End(), l[j].End()));
    FitsOrdered(l, rs, 0);
    rs
  }

  /** Every selection's whole span, what erase removes. */
  function Spans(l: seq<Selection>): (rs: seq<Range>)
    requires Sorted(l)
    ensures Fits(l, rs) && Ordered(rs)
  {
    var rs := seq(|l|, j requires 0 <= j < |l| => Range(l[j].Begin(), l[j].End()));
    FitsOrdered(l, rs, 0);
    rs
  }

  /** Since no two selections touch, neither do their spans. */
  lemma SpansSeparated(l: seq<Selection>)
    requires Sorted(l)
    ensures Separated(Spans(l))
  {
    var rs := Spans(l);
    forall i | 0 < i < |rs| ensures rs[i - 1].hi < rs[i].lo {
      assert Apart(l[i - 1], l[i]);
    }
  }

  /** Empty ranges at every cursor, where an insertion session types. */
  function Cursors(l: seq<Selection>): (rs: seq<Range>)
    requires Sorted(l)
    ensures Fits(l, rs) && Ordered(rs)
  {
    var rs := seq(|l|, j requires 0 <= j < |l| => Range(l[j].cursor, l[j].cursor));
    FitsOrdered(l, rs, 0);
    rs
  }

  /** Typing at every cursor of a non-empty list changes the buffer exactly
      when the typed text is not empty. */
  lemma CursorsChange(l: seq<Selection>, len: nat)
    requires Sorted(l) && |l| > 0
    ensures Changes(Cursors(l), len) <==> len > 0
  {
    var rs := Cursors(l);
    ChangesWhen(rs, len);
    forall i | 0 <= i < |rs| ensures rs[i].lo == rs[i].hi {
    }
  }

  /** The character before every cursor, what a backspace removes; nothing
      where the cursor is at the start of a line or of the buffer. */
  function Backspaces(buf: seq<char>, l: seq<Selection>): (rs: seq<Range>)
    requires Sorted(l) && InBounds(l, |buf|)
    ensures Fits(l, rs) && Ordered(rs)
    ensures forall j :: 0 <= j < |rs| ==>
      rs[j].hi == l[j].cursor && (rs[j].lo == rs[j].hi || (rs[j].lo + 1 == rs[j].hi && buf[rs[j].lo] != '\n'))
    ensures forall j :: 0 <= j < |rs| ==>
      (rs[j].lo + 1 == rs[j].hi <==> l[j].cursor > 0 && buf[l[j].cursor - 1] != '\n')
  {
    var rs := seq(|l|, j requires 0 <= j < |l| => Backspace(buf, l, j));
    BackspaceEach(buf, l, rs);
    FitsOrdered(l, rs, 0);
    rs
  }

  /** What each backspace range is, lifted to the whole list. */
  lemma BackspaceEach(buf: seq<char>, l: seq<Selection>, rs: seq<Range>)
    requires Sorted(l) && InBounds(l, |buf|)
    requires |rs| == |l| && forall j :: 0 <= j < |rs| ==> rs[j] == Backspace(buf, l, j)
    ensures Fits(l, rs)
    ensures forall j :: 0 <= j < |rs| ==>
      rs[j].hi == l[j].cursor && (rs[j].lo == rs[j].hi || (rs[j].lo + 1 == rs[j].hi && buf[rs[j].lo] != '\n'))
    ensures forall j :: 0 <= j < |rs| ==>
      (rs[j].lo + 1 == rs[j].hi <==> l[j].cursor > 0 && buf[l[j].cursor - 1] != '\n')
  {
    forall j | 0 <= j < |rs|
      ensures rs[j].hi == l[j].cursor <= l[j].End()
    {
      assert rs[j] == Backspace(buf, l, j);
    }
  }

  function Backspace(buf: seq<char>, l: seq<Selection>, j: nat): (r: Range)
    requires Sorted(l) && InBounds(l, |buf|) && j < |l|
    ensures j > 0 ==> l[j - 1].End() <= r.lo
    ensures r.hi == l[j].cursor
    ensures r.lo == r.hi || (r.lo + 1 == r.hi && buf[r.lo] != '\n')
    ensures r.lo + 1 == r.hi <==> l[j].cursor > 0 && buf[l[j].cursor - 1] != '\n'
  {
    var c := l[j].cursor;
    assert j > 0 ==> Apart(l[j - 1], l[j]);
    if c > 0 && buf[c - 1] != '\n' then Range(c - 1, c) else Range(c, c)
  }

  /** A backspace at every cursor changes the buffer exactly when some
      cursor is past the start of a line. */
  lemma BackspacesChange(buf: seq<char>, l: seq<Selection>)
    requires Sorted(l) && InBounds(l, |buf|)
    ensures Changes(Backspaces(buf, l), 0) <==>
            exists j :: 0 <= j < |l| && l[j].cursor > 0 && buf[l[j].cursor - 1] != '\n'
  {
    var rs := Backspaces(buf, l);
    ChangesWhen(rs, 0);
    RemovesWhere(buf, l, rs);
  }

  /** Ranges that each remove at most one character, exactly where the
      cursor follows a character on its line: some range removes something
      exactly when some cursor is past the start of a line. */
  lemma RemovesWhere(buf: seq<char>, l: seq<Selection>, rs: seq<Range>)
    requires InBounds(l, |buf|) && |rs| == |l|
    requires forall j :: 0 <= j < |rs| ==> rs[j].lo == rs[j].hi || rs[j].lo + 1 == rs[j].hi
    requires forall j :: 0 <= j < |rs| ==>
      (rs[j].lo + 1 == rs[j].hi <==> l[j].cursor > 0 && buf[l[j].cursor - 1] != '\n')
    ensures (exists i :: 0 <= i < |rs| && rs[i].lo < rs[i].hi) <==>
            exists j :: 0 <= j < |l| && l[j].cursor > 0 && buf[l[j].cursor - 1] != '\n'
  {
    if exists j :: 0 <= j < |l| && l[j].cursor > 0 && buf[l[j].cursor - 1] != '\n' {
      var j :| 0 <= j < |l| && l[j].cursor > 0 && buf[l[j].cursor - 1] != '\n';
      assert rs[j].lo < rs[j].hi;
    }
    if exists i :: 0 <= i < |rs| && rs[i].lo < rs[i].hi {
      var i :| 0 <= i < |rs| && rs[i].lo < rs[i].hi;
      assert l[i].cursor > 0 && buf[l[i].cursor - 1] != '\n';
    }
  }

  /** Insertions only: no range removes anything. */
  predicate AllEmpty(rs: seq<Range>) {
    forall i :: 0 <= i < |rs| ==> rs[i].lo == rs[i].hi
  }

  /** Insertions at distinct places, in document order. */
  predicate Increasing(rs: seq<Range>) {
    forall i, j :: 0 <= i < j < |rs| ==> rs[i].lo < rs[j].lo
  }

  /** `n` insertions of `len` characters lengthen the buffer by `n * len`. */
  lemma {:induction false} OffEmpty(rs: seq<Range>, len: nat)
    requires AllEmpty(rs)
    ensures Off(rs, len) == |rs| * len
  {
    if |rs| > 0 {
      var init := rs[..|rs| - 1];
      assert AllEmpty(init);
      OffEmpty(init, len);
      assert (|rs| - 1) * len + len == |rs| * len;
    }
  }

  /** After inserting `len` characters at several distinct places, the
      position of the j-th insertion point lands just past its own inserted
      text: it has moved by the j + 1 texts inserted at or before it. */
  lemma InsertionLands(rs: seq<Range>, len: nat, j: nat)
    requires Ordered(rs) && AllEmpty(rs) && Increasing(rs) && j < |rs|
    ensures MapPos(rs[j].lo, rs, len) == rs[j].lo + (j + 1) * len
  {
    var p := rs[j].lo;
    var c := Count(rs, p);
    forall i | 0 <= i <= j ensures rs[i].hi <= p {
    }
    assert j + 1 < |rs| ==> p < rs[j + 1].hi;
    assert c == j + 1;
    assert AllEmpty(rs[..c]);
    OffEmpty(rs[..c], len);
  }

  /** The position just before the j-th insertion point moves by the j
      texts inserted before it. */
  lemma InsertionBefore(rs: seq<Range>, len: nat, j: nat)
    requires Ordered(rs) && AllEmpty(rs) && Increasing(rs) && j < |rs| && rs[j].lo > 0
    ensures MapPos(rs[j].lo - 1, rs, len) == rs[j].lo - 1 + j * len
  {
    var p := rs[j].lo - 1;
    var c := Count(rs, p);
    forall i | 0 <= i < j ensures rs[i].hi <= p {
    }
    assert c == j;
    assert AllEmpty(rs[..c]);
    OffEmpty(rs[..c], len);
  }

  /** The character at the j-th insertion point ends up just past the
      j + 1 texts inserted at or before it. */
  lemma KeptAfterInsertion(buf: seq<char>, rs: seq<Range>, s: seq<char>, j: nat)
    requires Ordered(rs) && AllEmpty(rs) && Increasing(rs) && Within(rs, |buf|)
    requires j < |rs| && rs[j].lo < |buf|
    ensures rs[j].lo + (j + 1) * |s| < |ReplaceEach(buf, rs, s)|
    ensures ReplaceEach(buf, rs, s)[rs[j].lo + (j + 1) * |s|] == buf[rs[j].lo]
  {
    InsertionLands(rs, |s|, j);
    RemovesNothingAt(rs, rs[j].lo);
    ReplaceEachKeepsText(buf, rs, s, rs[j].lo);
  }

  /** The character just before the j-th insertion point ends up just past
      the j texts inserted before it. */
  lemma KeptBeforeInsertion(buf: seq<char>, rs: seq<Range>, s: seq<char>, j: nat)
    requires Ordered(rs) && AllEmpty(rs) && Increasing(rs) && Within(rs, |buf|)
    requires j < |rs| && rs[j].lo > 0
    ensures rs[j].lo - 1 + j * |s| < |ReplaceEach(buf, rs, s)|
    ensures ReplaceEach(buf, rs, s)[rs[j].lo - 1 + j * |s|] == buf[rs[j].lo - 1]
  {
    InsertionBefore(rs, |s|, j);
    RemovesNothingAt(rs, rs[j].lo - 1);
    ReplaceEachKeepsText(buf, rs, s, rs[j].lo - 1);
  }

  /** Insertions remove no character. */
  lemma RemovesNothingAt(rs: seq<Range>, p: nat)
    requires AllEmpty(rs)
    ensures forall i :: 0 <= i < |rs| ==> !(rs[i].lo <= p < rs[i].hi)
  {
  }

  /** A one-character text inserted at increasing places: the j-th copy
      lands at the j-th place shifted by the j copies before it, with the
      characters on either side of that place beside it. */
  lemma CharsLand(buf: seq<char>, rs: seq<Range>, s: seq<char>, j: nat)
    requires Ordered(rs) && AllEmpty(rs) && Increasing(rs) && Within(rs, |buf|)
    requires j < |rs| && |s| == 1
    ensures |ReplaceEach(buf, rs, s)| == |buf| + |rs|
    ensures rs[j].lo + j < |ReplaceEach(buf, rs, s)| && ReplaceEach(buf, rs, s)[rs[j].lo + j] == s[0]
    ensures rs[j].lo < |buf| ==> ReplaceEach(buf, rs, s)[rs[j].lo + j + 1] == buf[rs[j].lo]
    ensures rs[j].lo > 0 ==> ReplaceEach(buf, rs, s)[rs[j].lo + j - 1] == buf[rs[j].lo - 1]
  {
    OffEmpty(rs, 1);
    CharLands(buf, rs, s, j);
    assert (j + 1) * |s| == j + 1 && j * |s| == j;
    if rs[j].lo < |buf| {
      KeptAfterInsertion(buf, rs, s, j);
    }
    if rs[j].lo > 0 {
      KeptBeforeInsertion(buf, rs, s, j);
    }
  }

  lemma CharLands(buf: seq<char>, rs: seq<Range>, s: seq<char>, j: nat)
    requires Ordered(rs) && AllEmpty(rs) && Within(rs, |buf|) && j < |rs| && |s| == 1
    ensures rs[j].lo + j < |ReplaceEach(buf, rs, s)| && ReplaceEach(buf, rs, s)[rs[j].lo + j] == s[0]
  {
    var q := rs[j].lo + j;
    assert AllEmpty(rs[..j]);
    OffEmpty(rs[..j], 1);
    ReplaceEachInserts(buf, rs, s, j, q);
    assert ReplaceEach(buf, rs, s)[q..q + 1][0] == ReplaceEach(buf, rs, s)[q];
  }

  lemma StartsIncreasing(l: seq<Selection>)
    requires Sorted(l)
    ensures AllEmpty(Starts(l)) && Increasing(Starts(l))
  {
    var rs := Starts(l);
    forall i, j | 0 <= i < j < |rs| ensures rs[i].lo < rs[j].lo {
      assert Apart(l[i], l[j]);
    }
  }

  /** For a list of insertion points, typing at the cursors is inserting at
      the starts, and the points are increasing. */
  lemma CursorsOfPoints(l: seq<Selection>)
    requires Sorted(l)
    requires forall j :: 0 <= j < |l| ==> l[j].IsPoint()
    ensures Cursors(l) == Starts(l)
    ensures AllEmpty(Cursors(l)) && Increasing(Cursors(l))
  {
    StartsIncreasing(l);
  }

  /** Erasing every selection's span brings its end to where its start
      lands: the j-th selection collapses at its start moved back by the
      lengths of the selections before it. */
  lemma EraseCollapses(l: seq<Selection>, j: nat)
    requires Sorted(l) && j < |l|
    ensures Ordered(Spans(l))
    ensures MapPos(l[j].End(), Spans(l), 0) == MapPos(l[j].Begin(), Spans(l), 0)
    ensures MapPos(l[j].Begin(), Spans(l), 0) == l[j].Begin() + Off(Spans(l)[..j], 0)
  {
    var rs := Spans(l);
    FitsOrdered(l, rs, 0);
    var b, e := l[j].Begin(), l[j].End();
    assert rs[j].lo == b && rs[j].hi == e;
    RemovalLands(rs, j, b, e);
  }

  /** With nothing inserted, both ends of the j-th range land where its
      start lands: at its start, moved back by what the ranges before it
      removed. */
  lemma RemovalLands(rs: seq<Range>, j: nat, lo: int, hi: int)
    requires Ordered(rs) && j < |rs| && lo == rs[j].lo && hi == rs[j].hi
    ensures MapPos(lo, rs, 0) == lo + Off(rs[..j], 0)
    ensures MapPos(hi, rs, 0) == lo + Off(rs[..j], 0)
  {
    RemovalStartLands(rs, j, lo);
    RemovalEndLands(rs, j, lo, hi);
  }

  /** The start of a removed range lands past the earlier removals. */
  lemma RemovalStartLands(rs: seq<Range>, j: nat, lo: int)
    requires Ordered(rs) && j < |rs| && lo == rs[j].lo
    ensures MapPos(lo, rs, 0) == lo + Off(rs[..j], 0)
  {
    var cb := Count(rs, lo);
    assert j <= cb;
    forall m | j <= m < cb ensures rs[m].lo == rs[m].hi {
    }
    OffZeroTail(rs, j, cb);
  }

  /** The end of a removed range lands where its start does. */
  lemma RemovalEndLands(rs: seq<Range>, j: nat, lo: int, hi: int)
    requires Ordered(rs) && j < |rs| && lo == rs[j].lo && hi == rs[j].hi
    ensures MapPos(hi, rs, 0) == lo + Off(rs[..j], 0)
  {
    var ce := Count(rs, hi);
    assert j < ce;
    forall m | j < m < ce ensures rs[m].lo == rs[m].hi {
    }
    OffZeroTail(rs, j + 1, ce);
    assert rs[..j + 1][..j] == rs[..j];
  }

  /** Empty ranges change nothing when nothing is inserted. */
  lemma {:induction false} OffZeroTail(rs: seq<Range>, i: nat, k: nat)
    requires i <= k <= |rs|
    requires forall m :: i <= m < k ==> rs[m].lo == rs[m].hi
    ensures Off(rs[..k], 0) == Off(rs[..i], 0)
  {
    if i < k {
      OffZeroTail(rs, i, k - 1);
      assert rs[..k][..k - 1] == rs[..k - 1];
    }
  }
}
