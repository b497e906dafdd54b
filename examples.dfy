/** Worked scenarios on small buffers: each runs the editor's verbs on
    concrete text and states its expected outcome. */
module Examples {
  import opened Selections
  import opened Remap
  import opened Targets
  import opened Filters
  import opened Buffers
  import opened Editors
  import opened Inserters

  const LineStarts: seq<Selection> := [Point(0), Point(2), Point(4)]

  lemma ThreeLineStartsRanges(l: seq<Selection>)
    requires l == LineStarts
    ensures Sorted(l) && Starts(l) == [Range(0, 0), Range(2, 2), Range(4, 4)]
  {
  }

  /** Typing at one insertion point after others. */
  lemma TypedAfter(buf: seq<char>, rs: seq<Range>, p: nat, s: seq<char>)
    requires p <= |buf| && Ordered(rs + [Range(p, p)]) && Within(rs + [Range(p, p)], |buf|)
    ensures Ordered(rs) && Within(rs, p)
    ensures ReplaceEach(buf, rs + [Range(p, p)], s) == ReplaceEach(buf[..p], rs, s) + s + buf[p..]
  {
    ReplaceEachLast(buf, rs + [Range(p, p)], s);
    assert (rs + [Range(p, p)])[..|rs|] == rs;
  }

  /** Typing at one insertion point. */
  lemma TypedAtOne(buf: seq<char>, p: nat, s: seq<char>)
    requires p <= |buf|
    ensures Ordered([Range(p, p)]) && Within([Range(p, p)], |buf|)
    ensures ReplaceEach(buf, [Range(p, p)], s) == buf[..p] + s + buf[p..]
  {
    assert [Range(p, p)] == [] + [Range(p, p)];
    TypedAfter(buf, [], p, s);
  }

  /** Typing at two insertion points, in document order. */
  lemma TypedAtTwo(buf: seq<char>, p: nat, q: nat, s: seq<char>)
    requires p <= q <= |buf|
    ensures Ordered([Range(p, p), Range(q, q)]) && Within([Range(p, p), Range(q, q)], |buf|)
    ensures ReplaceEach(buf, [Range(p, p), Range(q, q)], s) == buf[..p] + s + buf[p..q] + s + buf[q..]
  {
    assert [Range(p, p), Range(q, q)] == [Range(p, p)] + [Range(q, q)];
    TypedAfter(buf, [Range(p, p)], q, s);
    TypedAtOne(buf[..q], p, s);
    assert buf[..q][..p] == buf[..p] && buf[..q][p..] == buf[p..q];
  }

  /** Typing at three insertion points, in document order. */
  lemma TypedAtThree(buf: seq<char>, p: nat, q: nat, r: nat, s: seq<char>)
    requires p <= q <= r <= |buf|
    ensures Ordered([Range(p, p), Range(q, q), Range(r, r)]) && Within([Range(p, p), Range(q, q), Range(r, r)], |buf|)
    ensures ReplaceEach(buf, [Range(p, p), Range(q, q), Range(r, r)], s)
         == buf[..p] + s + buf[p..q] + s + buf[q..r] + s + buf[r..]
  {
    var rp, rq := Range(p, p), Range(q, q);
    assert [rp, rq, Range(r, r)] == [rp, rq] + [Range(r, r)];
    TypedAfter(buf, [rp, rq], r, s);
    TypedAtTwo(buf[..r], p, q, s);
    assert buf[..r][..p] == buf[..p] && buf[..r][p..q] == buf[p..q] && buf[..r][q..] == buf[q..r];
  }


  /** Typing "X" at the three line starts of "a\nb\nc". */
  lemma ThreeLineStartsText(buf: seq<char>, rs: seq<Range>)
    requires buf == "a\nb\nc" && rs == [Range(0, 0), Range(2, 2), Range(4, 4)]
    ensures Ordered(rs) && Within(rs, |buf|)
    ensures ReplaceEach(buf, rs, "X") == "Xa\nXb\nXc"
  {
    TypedAtThree(buf, 0, 2, 4, "X");
    assert buf[..0] == [] && buf[0..2] == "a\n" && buf[2..4] == "b\n" && buf[4..] == "c";
  }

  /** ... and every cursor ends just after its copy. */
  lemma ThreeLineStartsCursors(l: seq<Selection>)
    requires l == LineStarts
    ensures Sorted(l)
    ensures Normalize(MapList(l, Starts(l), 1)) == [Point(1), Point(4), Point(7)]
  {
    InsertedPointsLand(l, "X");
    var m := MapList(l, Starts(l), 1);
    assert m[0].IsPoint() && m[0].Begin() == 1;
    assert m[1].IsPoint() && m[1].Begin() == 4;
    assert m[2].IsPoint() && m[2].Begin() == 7;
  }

  /** A stack of one list is edited as that list. */
  lemma EditedSingle(l: seq<Selection>, rs: seq<Range>, len: nat)
    requires Ordered(rs)
    ensures Edited([l], rs, len) == [Normalize(MapList(l, rs, len))]
  {
  }

  /** A multi-selector that finds the three line starts of "a\nb\nc". */
  function AtLineStarts(x: Selection): (r: seq<Selection>)
    ensures r == LineStarts
  {
    LineStarts
  }

  lemma ThreeLineStartsSelected()
    ensures Gather([Point(0)], AtLineStarts) == LineStarts
    ensures Normalize(LineStarts) == LineStarts
  {
    assert Gather([Point(0)], AtLineStarts) == LineStarts + Gather([], AtLineStarts);
    NormalizeSorted(LineStarts);
  }

  /** Cursors at the start of each of three lines: one insert puts the text
      on every line, and every cursor ends just after its copy. */
  method InsertAtThreeLineStarts() returns (text: seq<char>, active: seq<Selection>)
    ensures text == "Xa\nXb\nXc"
    ensures active == [Point(1), Point(4), Point(7)]
  {
    var b := new Buffer("a\nb\nc");
    var e := new Editor(b);
    ThreeLineStartsSelected();
    var done := e.MultiSelect(AtLineStarts);
    assert e.stack == [LineStarts] && e.buffer.content == "a\nb\nc";
    ThreeLineStartsRanges(e.Active());
    ThreeLineStartsText(e.buffer.content, Starts(e.Active()));
    ThreeLineStartsCursors(e.Active());
    e.Insert("X");
    EditedSingle(LineStarts, Starts(LineStarts), 1);
    text, active := e.buffer.content, e.Active();
  }

  /** Typing at a single insertion point: the text goes in there and the
      point moves past it. */
  lemma TypedAtPoint(buf: seq<char>, p: nat, s: seq<char>)
    requires p <= |buf|
    ensures Ordered([Range(p, p)]) && Within([Range(p, p)], |buf|)
    ensures ReplaceEach(buf, [Range(p, p)], s) == buf[..p] + s + buf[p..]
    ensures Edited([[Point(p)]], [Range(p, p)], |s|) == [[Point(p + |s|)]]
  {
    assert [Range(p, p)][..0] == [];
    assert buf[..p][..0] == [];
    var m := MapList([Point(p)], [Range(p, p)], |s|);
    InsertedPointsLand([Point(p)], s);
    assert Starts([Point(p)]) == [Range(p, p)];
    assert m[0].IsPoint() && m[0].Begin() == p + |s|;
    EditedSingle([Point(p)], [Range(p, p)], |s|);
  }

  lemma TypedXY()
    ensures "a\nb"[..0] + "X" + "a\nb"[0..] == "Xa\nb"
    ensures "Xa\nb"[..1] + "Y" + "Xa\nb"[1..] == "XYa\nb"
  {
  }

  /** The first undo step of a fresh history. */
  lemma CommitFirst(t0: seq<char>, t1: seq<char>)
    ensures Commit(History([t0], 0), t1) == History([t0, t1], 1)
  {
    assert [t0][..1] == [t0];
  }

  /** A keystroke in a session whose only cursor is the point `p`. */
  method TypeAt(session: IncrementalInserter, p: nat, s: seq<char>)
    requires session.Valid() && session.open
    requires session.editor.stack == [[Point(p)]] && p <= |session.editor.buffer.content|
    modifies session`captures, session.editor`stack, session.editor.buffer`content, session.editor.buffer`pending
    ensures session.Valid() && session.open
    ensures session.editor.buffer.pending == (old(session.editor.buffer.pending) || |s| > 0)
    ensures session.editor.buffer.content == old(session.editor.buffer.content)[..p] + s + old(session.editor.buffer.content)[p..]
    ensures session.editor.stack == [[Point(p + |s|)]]
  {
    TypedAtPoint(session.editor.buffer.content, p, s);
    session.Insert(s);
  }

  /** An insert session with one cursor at the start of "a\nb" in which
      "X" and then "Y" are typed: the session commits one undo step. */
  method TypeInSession(e: Editor)
    requires e.Valid() && e.batchLevel == 0
    requires e.stack == [[Point(0)]] && e.buffer.content == "a\nb"
    requires e.buffer.history == History(["a\nb"], 0)
    modifies e, e.buffer
    ensures e.Valid() && e.batchLevel == 0
    ensures e.buffer.content == "XYa\nb" && e.stack == [[Point(2)]]
    ensures e.buffer.history == History(["a\nb", "XYa\nb"], 1)
  {
    NormalizeSorted([Point(0)]);
    TypedXY();
    var session := new IncrementalInserter(e, Insert);
    TypeAt(session, 0, "X");
    TypeAt(session, 1, "Y");
    session.Close();
    CommitFirst("a\nb", "XYa\nb");
  }

  /** An insert session at the start of the buffer whose only key is a
      backspace changes nothing and records no undo step. */
  method EraseAtBufferStart(e: Editor)
    requires e.Valid() && e.batchLevel == 0 && e.stack == [[Point(0)]]
    modifies e, e.buffer
    ensures e.Valid() && e.batchLevel == 0
    ensures e.buffer.content == old(e.buffer.content) && e.buffer.history == old(e.buffer.history)
  {
    ghost var buf, h := e.buffer.content, e.buffer.history;
    InsertStartsAt([[Point(0)]], buf, 0);
    var session := new IncrementalInserter(e, Insert);
    assert e.buffer.content == buf && e.Active() == [Point(0)];
    assert e.batchLevel == 1 && session.startHistory == h && !e.buffer.pending;
    BackspacesChange(buf, [Point(0)]);
    ghost var rs := Backspaces(buf, [Point(0)]);
    ReplaceEachUnchanged(buf, rs, []);
    session.Erase();
    assert !e.buffer.pending && e.buffer.content == buf && e.batchLevel == 1;
    session.Close();
  }

  /** An insert session over a single point starts from the same text and
      the same stack. */
  lemma InsertStartsAt(st: Stack, buf: seq<char>, p: nat)
    requires st == [[Point(p)]] && p <= |buf|
    ensures StackValid(st, |buf|) && Started(Insert, buf, st) == (buf, st)
  {
    NormalizeSorted([Point(p)]);
    assert CollapseAll(Insert, buf, [Point(p)]) == [Point(p)];
    assert StartPoints(Insert, buf, [Point(p)]) == [Point(p)];
    assert Collapsed(Insert, buf, st) == SetTop(st, [Point(p)]) == st;
  }

  /** Everything typed in one insert session is taken back by a single
      undo, after which there is nothing left to undo. */
  method SessionUndoneAtOnce() returns (undone: seq<char>, more: bool)
    ensures undone == "a\nb"
    ensures !more
  {
    var b := new Buffer("a\nb");
    var e := new Editor(b);
    TypeInSession(e);
    var done := e.Undo();
    undone := e.buffer.content;
    more := e.Undo();
  }

  /** Any reshaping of the selections between a push and a pop leaves the
      whole stack, and so the active list, as it was. */
  method ReshapeThenRestore(e: Editor, selector: Selection -> Selection, offset: int, index: int)
    requires e.Valid()
    requires forall j :: 0 <= j < |e.Active()| ==> selector(e.Active()[j]).End() <= |e.buffer.content|
    modifies e`stack
    ensures e.Valid() && e.stack == old(e.stack) && e.Active() == old(e.Active())
  {
    e.PushSelections();
    e.Select(selector, true);
    e.MoveSelections(offset, false);
    var kept := e.KeepSelection(index);
    e.ClearSelections();
    var done := e.PopSelections();
    assert done;
  }

  const Registered: seq<Filter> := [Filter("indent", 0), Filter("indent-guess", 1), Filter("autopair", 2)]

  lemma RegisteredCompletions()
    ensures Completions(Registered, "ind") == ["indent", "indent-guess"]
    ensures Completions(Registered, "") == ["indent", "indent-guess", "autopair"]
  {
    assert Registered[..2] == [Filter("indent", 0), Filter("indent-guess", 1)];
    assert Registered[..2][..1] == [Filter("indent", 0)];
    assert [Filter("indent", 0)][..0] == [];
    assert "autopair"[..3][0] == 'a';
    assert "indent"[..3] == "ind" && "indent-guess"[..3] == "ind";
  }

  lemma RegisteredFresh()
    ensures !HasId([], Registered[0].id)
    ensures !HasId([Registered[0]], Registered[1].id)
    ensures !HasId([Registered[0], Registered[1]], Registered[2].id)
  {
    assert |Registered[0].id| != |Registered[1].id|;
    assert Registered[2].id[0] != Registered[0].id[0];
    assert Registered[2].id[0] != Registered[1].id[0];
  }

  /** Registers the three filters above, in order. */
  method RegisterThree(e: Editor)
    requires e.Valid() && e.filters == []
    modifies e`filters
    ensures e.Valid() && e.filters == Registered
  {
    RegisteredFresh();
    var s := e.AddFilter(Registered[0]);
    assert e.filters == [Registered[0]];
    s := e.AddFilter(Registered[1]);
    assert e.filters == [Registered[0], Registered[1]];
    s := e.AddFilter(Registered[2]);
  }

  /** Three filters registered in turn; completing "ind" (only the first
      three characters of "indigo" count) lists the two ids that start
      with it, in the order they were added, and a second filter named
      "indent" is refused. */
  method CompleteRegistered() returns (found: seq<string>, all: seq<string>, again: FilterStatus)
    ensures found == ["indent", "indent-guess"]
    ensures all == ["indent", "indent-guess", "autopair"]
    ensures again == DuplicateId
  {
    var b := new Buffer("");
    var e := new Editor(b);
    RegisterThree(e);
    RegisteredCompletions();
    assert "indigo"[..3] == "ind" && "indigo"[..0] == "";
    found := e.CompleteFilterId("indigo", 3);
    all := e.CompleteFilterId("indigo", 0);
    assert Registered[0].id == "indent";
    again := e.AddFilter(Filter("indent", 7));
  }

  lemma RemainingCompletions(fs: seq<Filter>)
    requires fs == Registered
    ensures UniqueIds(fs) && Without(fs, "indent") == fs[1..]
    ensures Completions(fs[1..], "ind") == ["indent-guess"]
  {
    RegisteredFresh();
    WithoutAt(fs, "indent", 0);
    var rest := fs[1..];
    assert rest == [Filter("indent-guess", 1), Filter("autopair", 2)];
    assert rest[..1] == [Filter("indent-guess", 1)];
    assert [Filter("indent-guess", 1)][..0] == [];
    assert "autopair"[..3][0] == 'a';
    assert "indent-guess"[..3] == "ind";
  }

  /** Once "indent" is unregistered, completing "ind" finds only
      "indent-guess". */
  method RemoveThenComplete() returns (status: FilterStatus, found: seq<string>)
    ensures status == Done && found == ["indent-guess"]
  {
    var b := new Buffer("");
    var e := new Editor(b);
    RegisterThree(e);
    RemainingCompletions(e.filters);
    assert HasId(e.filters, "indent") by {
      assert e.filters[0].id == "indent";
    }
    status := e.RemoveFilter("indent");
    assert "ind"[..3] == "ind";
    found := e.CompleteFilterId("ind", 3);
  }

  /** Erasing a single selection, which spans [lo, hi), leaves a point at
      its start. */
  lemma ErasedOneSelection(x: Selection, lo: nat, hi: nat)
    requires lo == x.Begin() && hi == x.End()
    ensures Spans([x]) == [Range(lo, hi)]
    ensures Edited([[x]], Spans([x]), 0) == [[Point(lo)]]
  {
    var rs := Spans([x]);
    assert rs == [Range(lo, hi)];
    EraseCollapses([x], 0);
    assert rs[..0] == [];
    MapSelEnds(x, rs, 0);
    var m := MapList([x], rs, 0);
    assert m[0].Begin() == lo && m[0].End() == lo;
    assert m == [Point(lo)];
    NormalizeSorted(m);
    EditedSingle([x], rs, 0);
  }

  /** Erasing a single selection, which spans [lo, hi): its text goes and
      it becomes a point at its start. */
  lemma ErasedOne(buf: seq<char>, x: Selection, lo: nat, hi: nat)
    requires lo == x.Begin() && hi == x.End() && hi <= |buf|
    ensures Spans([x]) == [Range(lo, hi)] && Within(Spans([x]), |buf|)
    ensures ReplaceEach(buf, Spans([x]), []) == buf[..lo] + buf[hi..]
    ensures Edited([[x]], Spans([x]), 0) == [[Point(lo)]]
  {
    ErasedOneSelection(x, lo, hi);
    assert [Range(lo, hi)][..0] == [];
    assert buf[..lo][..0] == [];
  }

  /** Replacing the text of a single selection, which spans [lo, hi) with
      lo < hi: the text is replaced in place, the selection becomes a point
      past the new text, and the same selection kept in another list now
      spans the new text. */
  lemma ReplacedOne(buf: seq<char>, x: Selection, s: seq<char>, lo: nat, hi: nat)
    requires x == Selection(lo, hi) && lo < hi <= |buf|
    ensures Spans([x]) == [Range(lo, hi)] && Within(Spans([x]), |buf|)
    ensures ReplaceEach(buf, Spans([x]), s) == buf[..lo] + s + buf[hi..]
    ensures ReplacedPoints([x], |s|) == [Point(lo + |s|)]
    ensures Edited([[x]], Spans([x]), |s|) == [[Selection(lo, lo + |s|)]]
  {
    var rs := Spans([x]);
    assert rs == [Range(lo, hi)];
    assert rs[..0] == [];
    assert buf[..lo][..0] == [];
    ReplaceLands(buf, [x], s, 0, lo);
    MapPosRangeEnd(rs, 0, |s|);
    var m := MapList([x], rs, |s|);
    assert m[0] == MapSel(x, rs, |s|);
    assert m == [Selection(lo, lo + |s|)];
    NormalizeSorted(m);
    EditedSingle([x], rs, |s|);
  }

  /** Replacing "hello" in "hello world" by "hi". */
  lemma ReplacedHello(buf: seq<char>, x: Selection)
    requires buf == "hello world" && x == Selection(0, 5)
    ensures StackValid([[x]], |buf|)
    ensures ReplaceEach(buf, Spans([x]), "hi") == "hi world"
    ensures ReplacedPoints([x], 2) == [Point(2)]
    ensures Edited([[x]], Spans([x]), 2) == [[Selection(0, 2)]]
  {
    ReplacedOne(buf, x, "hi", 0, 5);
    assert buf[..0] + "hi" + buf[5..] == "hi world";
  }

  /** The stack after replacing "hello" by "hi" with the selection of
      "hello" pushed below the active one. */
  lemma ReplacedPushed(buf: seq<char>, x: Selection, st: Stack)
    requires buf == "hello world" && x == Selection(0, 5) && st == [[x], [x]]
    ensures StackValid(st, |buf|)
    ensures SetTop(Edited(st, Spans([x]), 2), ReplacedPoints([x], 2)) == [[Selection(0, 2)], [Point(2)]]
  {
    ReplacedHello(buf, x);
    var rs := Spans([x]);
    assert Edited(st, rs, 2)[0] == Normalize(MapList([x], rs, 2)) == Edited([[x]], rs, 2)[0];
  }

  function FirstWord(x: Selection): (r: Selection)
    ensures r == Selection(0, 5)
  {
    Selection(0, 5)
  }

  /** Selects the first word of "hello world". */
  method SelectFirstWord(e: Editor)
    requires e.Valid() && e.stack == [[Point(0)]] && e.buffer.content == "hello world"
    modifies e`stack
    ensures e.Valid() && e.stack == [[Selection(0, 5)]] && e.buffer.content == "hello world"
  {
    NormalizeSorted([Selection(0, 5)]);
    assert Selected([Point(0)], FirstWord) == [Selection(0, 5)];
    e.Select(FirstWord, false);
  }

  /** Selecting the first word of "hello world", pushing that list and
      replacing the word by "hi": the text becomes "hi world", the active
      selection a point just past "hi", and the pushed selection spans "hi",
      because each selection is replaced by a single modification. */
  method ReplaceFirstWord() returns (text: seq<char>, active: seq<Selection>, pushed: seq<Selection>)
    ensures text == "hi world" && active == [Point(2)] && pushed == [Selection(0, 2)]
  {
    var b := new Buffer("hello world");
    var e := new Editor(b);
    SelectFirstWord(e);
    e.PushSelections();
    var x := Selection(0, 5);
    assert e.stack == [[x], [x]];
    ReplacedHello(e.buffer.content, x);
    ReplacedPushed(e.buffer.content, x, e.stack);
    e.Replace("hi");
    text, active, pushed := e.buffer.content, e.Active(), e.stack[0];
  }
}
