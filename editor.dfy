/** The editor: a stack of selection lists over one buffer, the verbs that
    edit the buffer through the active list, the batches that group edits
    into undo steps, and the filter registry. */
module Editors {
  import opened Selections
  import opened Remap
  import opened Targets
  import opened Filters
  import opened Buffers

  /** `v` brought into [0, size]. */
  function Clamp(v: int, size: nat): (r: nat)
    ensures r <= size
    ensures 0 <= v <= size ==> r == v
  {
    if v < 0 then 0 else if v > size then size else v
  }

  /** Every selection translated by `offset`, both ends clamped to the buffer. */
  function MoveAll(l: seq<Selection>, offset: int, size: nat): (r: seq<Selection>)
    ensures |r| == |l| && InBounds(r, size)
  {
    seq(|l|, j requires 0 <= j < |l| =>
      Selection(Clamp(l[j].anchor + offset, size), Clamp(l[j].cursor + offset, size)))
  }

  /** Moving one selection that needs no clamping shifts both its ends. */
  lemma MoveOne(l: seq<Selection>, offset: int, size: nat, j: nat)
    requires j < |l| && 0 <= l[j].Begin() + offset && l[j].End() + offset <= size
    ensures MoveAll(l, offset, size)[j].Begin() == l[j].Begin() + offset
    ensures MoveAll(l, offset, size)[j].End() == l[j].End() + offset
  {
  }

  /** A translation that needs no clamping keeps the list's order, so the
      moved list replaces the old one selection for selection. */
  lemma MoveKeepsOrder(l: seq<Selection>, offset: int, size: nat)
    requires Sorted(l)
    requires forall j :: 0 <= j < |l| ==> 0 <= l[j].Begin() + offset && l[j].End() + offset <= size
    ensures Sorted(MoveAll(l, offset, size))
    ensures Normalize(MoveAll(l, offset, size)) == MoveAll(l, offset, size)
  {
    var r := MoveAll(l, offset, size);
    forall i, j | 0 <= i < j < |l| ensures Apart(r[i], r[j]) {
      assert Apart(l[i], l[j]);
      MoveOne(l, offset, size, i);
      MoveOne(l, offset, size, j);
    }
    NormalizeSorted(r);
  }

  /** The results of a multi-selector for every selection, one after another. */
  function Gather(l: seq<Selection>, ms: Selection -> seq<Selection>): (r: seq<Selection>)
    ensures |r| == 0 <==> forall j :: 0 <= j < |l| ==> |ms(l[j])| == 0
  {
    if |l| == 0 then []
    else
      assert forall j :: 0 < j < |l| ==> l[1..][j - 1] == l[j];
      ms(l[0]) + Gather(l[1..], ms)
  }

  /** Every result of the multi-selector is among the gathered selections. */
  lemma {:induction false} GatherContains(l: seq<Selection>, ms: Selection -> seq<Selection>, j: nat, i: nat)
    requires j < |l| && i < |ms(l[j])|
    ensures ms(l[j])[i] in Gather(l, ms)
  {
    if j > 0 {
      assert l[1..][j - 1] == l[j];
      GatherContains(l[1..], ms, j - 1, i);
    }
  }

  lemma {:induction false} GatherInBounds(l: seq<Selection>, ms: Selection -> seq<Selection>, size: nat)
    requires forall j :: 0 <= j < |l| ==> InBounds(ms(l[j]), size)
    ensures InBounds(Gather(l, ms), size)
  {
    if |l| > 0 {
      assert forall j :: 0 < j < |l| ==> l[1..][j - 1] == l[j];
      GatherInBounds(l[1..], ms, size);
    }
  }

  /** A list brought back within a buffer of `size` characters and merged
      again, as after an undo or redo changed the buffer's length. */
  function Refit(l: seq<Selection>, size: nat): (r: seq<Selection>)
    ensures |l| > 0 ==> ValidList(r, size)
  {
    NormalizeInBounds(MoveAll(l, 0, size), size);
    Normalize(MoveAll(l, 0, size))
  }

  /** Every list of the stack refitted into a buffer of `size` characters. */
  function Resync(st: Stack, size: nat): (r: Stack)
    ensures |r| == |st|
    ensures forall t :: 0 <= t < |r| ==> |st[t]| > 0 ==> ValidList(r[t], size)
  {
    seq(|st|, t requires 0 <= t < |st| => Refit(st[t], size))
  }

  /** A list of insertion points stays a list of insertion points when merged. */
  lemma {:induction false} InsertSelPoints(x: Selection, l: seq<Selection>)
    requires Sorted(l) && x.IsPoint()
    requires forall j :: 0 <= j < |l| ==> l[j].IsPoint()
    ensures forall j :: 0 <= j < |InsertSel(x, l)| ==> InsertSel(x, l)[j].IsPoint()
    decreases |l|
  {
    if |l| > 0 && !Apart(x, l[0]) {
      if Apart(l[0], x) {
        InsertSelPoints(x, l[1..]);
      } else {
        InsertSelPoints(Merge(x, l[0]), l[1..]);
      }
    }
  }

  lemma {:induction false} NormalizePoints(l: seq<Selection>)
    requires forall j :: 0 <= j < |l| ==> l[j].IsPoint()
    ensures forall j :: 0 <= j < |Normalize(l)| ==> Normalize(l)[j].IsPoint()
  {
    if |l| > 0 {
      NormalizePoints(l[1..]);
      InsertSelPoints(l[0], Normalize(l[1..]));
    }
  }

  /** Erasing every selection of a list leaves a list of insertion points. */
  lemma ErasedArePoints(l: seq<Selection>)
    requires Sorted(l)
    ensures Ordered(Spans(l))
    ensures forall j :: 0 <= j < |Normalize(MapList(l, Spans(l), 0))| ==>
      Normalize(MapList(l, Spans(l), 0))[j].IsPoint()
  {
    FitsOrdered(l, Spans(l), 0);
    var m := MapList(l, Spans(l), 0);
    forall j | 0 <= j < |l| ensures m[j].IsPoint() {
      EraseCollapses(l, j);
      MapSelEnds(l[j], Spans(l), 0);
    }
    NormalizePoints(m);
  }

  /** Inserting `s` before every insertion point of a list: the list keeps
      its shape and the j-th point lands right after its own copy of `s`. */
  lemma InsertedPointsLand(l: seq<Selection>, s: seq<char>)
    requires Sorted(l) && forall j :: 0 <= j < |l| ==> l[j].IsPoint()
    ensures Ordered(Starts(l))
    ensures Normalize(MapList(l, Starts(l), |s|)) == MapList(l, Starts(l), |s|)
    ensures forall j :: 0 <= j < |l| ==>
      MapList(l, Starts(l), |s|)[j].IsPoint()
      && MapList(l, Starts(l), |s|)[j].Begin() == l[j].Begin() + (j + 1) * |s|
  {
    var rs := Starts(l);
    FitsOrdered(l, rs, 0);
    StartsIncreasing(l);
    MapListInsertSorted(l, rs, |s|);
    NormalizeSorted(MapList(l, rs, |s|));
    forall j | 0 <= j < |l|
      ensures MapList(l, rs, |s|)[j].IsPoint()
      ensures MapList(l, rs, |s|)[j].Begin() == l[j].Begin() + (j + 1) * |s|
    {
      InsertionLands(rs, |s|, j);
      assert MapList(l, rs, |s|)[j] == MapSel(l[j], rs, |s|);
    }
  }

  /** Inserting `s` before every selection of a list puts the j-th copy of
      `s` at `q`, where the j-th selection started moved by the j copies
      before it. */
  lemma InsertedTextLands(buf: seq<char>, l: seq<Selection>, s: seq<char>, j: nat, q: nat)
    requires ValidList(l, |buf|) && j < |l|
    requires q == l[j].Begin() + j * |s|
    ensures Ordered(Starts(l)) && Within(Starts(l), |buf|)
    ensures q + |s| <= |ReplaceEach(buf, Starts(l), s)|
    ensures ReplaceEach(buf, Starts(l), s)[q..q + |s|] == s
  {
    var rs := Starts(l);
    FitsOrdered(l, rs, |buf|);
    StartsOffset(l, j, |s|);
    ReplaceEachInserts(buf, rs, s, j, q);
  }

  /** The insertions at the starts of the first `j` selections lengthen
      the buffer by `j` times the inserted length. */
  lemma StartsOffset(l: seq<Selection>, j: nat, len: nat)
    requires Sorted(l) && j <= |l|
    ensures Off(Starts(l)[..j], len) == j * len
  {
    var rs := Starts(l);
    assert AllEmpty(rs[..j]);
    OffEmpty(rs[..j], len);
  }

  /** The selection a selector computes for each selection, in order. */
  function Selected(l: seq<Selection>, selector: Selection -> Selection): (r: seq<Selection>)
    ensures |r| == |l|
  {
    seq(|l|, j requires 0 <= j < |l| => selector(l[j]))
  }

  /** Every result of a multi-selector is spanned by the list it becomes. */
  lemma MultiSelectCovers(l: seq<Selection>, ms: Selection -> seq<Selection>, j: nat, i: nat)
    requires j < |l| && i < |ms(l[j])|
    ensures Spanned(Normalize(Gather(l, ms)), ms(l[j])[i])
  {
    var g := Gather(l, ms);
    GatherContains(l, ms, j, i);
    var k :| 0 <= k < |g| && g[k] == ms(l[j])[i];
    NormalizeCovers(g);
  }

  /** Every gathered selection is a result of the multi-selector. */
  lemma {:induction false} GatherFrom(l: seq<Selection>, ms: Selection -> seq<Selection>, z: Selection)
    requires z in Gather(l, ms)
    ensures exists j, i :: 0 <= j < |l| && 0 <= i < |ms(l[j])| && ms(l[j])[i] == z
  {
    if z in ms(l[0]) {
      var i :| 0 <= i < |ms(l[0])| && ms(l[0])[i] == z;
    } else {
      GatherFrom(l[1..], ms, z);
      var j, i :| 0 <= j < |l[1..]| && 0 <= i < |ms(l[1..][j])| && ms(l[1..][j])[i] == z;
      assert l[1..][j] == l[j + 1];
    }
  }

  /** The list a multi-select makes active holds nothing but what the
      multi-selector found: each of its selections starts where a found one
      starts, ends where a found one ends, and covers only positions some
      found selection covers. */
  lemma MultiSelectMade(l: seq<Selection>, ms: Selection -> seq<Selection>)
    ensures AllMade(Normalize(Gather(l, ms)), Gather(l, ms))
  {
    NormalizeMade(Gather(l, ms));
  }

  lemma ResyncValid(st: Stack, size: nat)
    requires |st| > 0 && forall t :: 0 <= t < |st| ==> |st[t]| > 0
    ensures StackValid(Resync(st, size), size)
  {
  }

  /** Where replace leaves each selection: a point just past the text that
      replaced it, which is where the selection's end maps to. */
  function ReplacedPoints(l: seq<Selection>, len: nat): (r: seq<Selection>)
    requires Sorted(l)
    ensures |r| == |l| && forall j :: 0 <= j < |r| ==> r[j].IsPoint()
  {
    seq(|l|, j requires 0 <= j < |l| => Point(MapPos(l[j].End(), Spans(l), len)))
  }

  /** Replacing every selection by `s` in one pass puts the j-th copy of `s`
      at `q`, where the j-th selection started moved by the replacements
      before it, and the j-th replaced point just past that copy. */
  lemma ReplaceLands(buf: seq<char>, l: seq<Selection>, s: seq<char>, j: nat, q: int)
    requires ValidList(l, |buf|) && j < |l|
    requires q == l[j].Begin() + Off(Spans(l)[..j], |s|)
    ensures Within(Spans(l), |buf|) && q >= 0
    ensures q + |s| <= |ReplaceEach(buf, Spans(l), s)|
    ensures ReplaceEach(buf, Spans(l), s)[q..q + |s|] == s
    ensures ReplacedPoints(l, |s|)[j] == Point(q + |s|)
  {
    TextLands(buf, l, s, j, q);
    PointLands(buf, l, s, j, q);
  }

  /** The text half of `ReplaceLands`. */
  lemma TextLands(buf: seq<char>, l: seq<Selection>, s: seq<char>, j: nat, q: int)
    requires ValidList(l, |buf|) && j < |l|
    requires q == l[j].Begin() + Off(Spans(l)[..j], |s|)
    ensures Within(Spans(l), |buf|) && q >= 0
    ensures q + |s| <= |ReplaceEach(buf, Spans(l), s)|
    ensures ReplaceEach(buf, Spans(l), s)[q..q + |s|] == s
  {
    SpanOf(l, |buf|, j);
    RangeLands(buf, Spans(l), s, j, q);
  }

  /** The point half of `ReplaceLands`. */
  lemma PointLands(buf: seq<char>, l: seq<Selection>, s: seq<char>, j: nat, q: int)
    requires ValidList(l, |buf|) && j < |l|
    requires q == l[j].Begin() + Off(Spans(l)[..j], |s|)
    ensures q >= 0 && ReplacedPoints(l, |s|)[j] == Point(q + |s|)
  {
    ReplacedPointOf(l, |s|, j);
    EndMapsPastText(l, |s|, j, q);
  }

  /** The j-th selection's end maps to just past the text that replaced
      it: its start `q` shifted by the replacements before it, plus the
      text. */
  lemma EndMapsPastText(l: seq<Selection>, len: nat, j: nat, q: int)
    requires Sorted(l) && j < |l|
    requires q == l[j].Begin() + Off(Spans(l)[..j], len)
    ensures q >= 0 && MapPos(l[j].End(), Spans(l), len) == q + len
  {
    var rs := Spans(l);
    FitsOrdered(l, rs, 0);
    SpansSeparated(l);
    assert rs[j].lo == l[j].Begin() && rs[j].hi == l[j].End();
    MapPosRangeEnd(rs, j, len);
  }

  /** The j-th span of a valid list runs from the j-th selection's start to
      its end, among separated spans that stay within the buffer. */
  lemma SpanOf(l: seq<Selection>, size: nat, j: nat)
    requires ValidList(l, size) && j < |l|
    ensures Ordered(Spans(l)) && Separated(Spans(l)) && Within(Spans(l), size)
    ensures j < |Spans(l)| && Spans(l)[j] == Range(l[j].Begin(), l[j].End())
  {
    FitsOrdered(l, Spans(l), size);
    SpansSeparated(l);
  }

  /** The j-th replaced point is where the j-th selection's end maps to. */
  lemma ReplacedPointOf(l: seq<Selection>, len: nat, j: nat)
    requires Sorted(l) && j < |l|
    ensures ReplacedPoints(l, len)[j] == Point(MapPos(l[j].End(), Spans(l), len))
  {
  }

  /** The replaced points form a valid list of the edited buffer. */
  lemma ReplacedPointsValid(l: seq<Selection>, len: nat, size: nat)
    requires ValidList(l, size)
    ensures size + Off(Spans(l), len) >= 0
    ensures ValidList(ReplacedPoints(l, len), size + Off(Spans(l), len))
  {
    var rs := Spans(l);
    SpanOf(l, size, 0);
    MapPosEnd(rs, len, size);
    ReplacedPointsInBounds(l, len, size, rs);
    ReplacedPointsSorted(l, len, size, rs);
  }

  /** No replaced point lies past the end of the edited buffer. */
  lemma ReplacedPointsInBounds(l: seq<Selection>, len: nat, size: nat, rs: seq<Range>)
    requires ValidList(l, size) && rs == Spans(l)
    ensures forall j :: 0 <= j < |l| ==> ReplacedPoints(l, len)[j].End() <= MapPos(size, rs, len)
  {
    forall j | 0 <= j < |l| ensures ReplacedPoints(l, len)[j].End() <= MapPos(size, rs, len) {
      ReplacedEndOf(l, len, size, j, rs);
      MapPosMonotone(rs[j].hi, size, rs, len);
    }
  }

  /** The replaced points are strictly increasing. */
  lemma ReplacedPointsSorted(l: seq<Selection>, len: nat, size: nat, rs: seq<Range>)
    requires ValidList(l, size) && rs == Spans(l)
    ensures Sorted(ReplacedPoints(l, len))
  {
    var r := ReplacedPoints(l, len);
    forall i, k | 0 <= i < k < |l| ensures Apart(r[i], r[k]) {
      ReplacedEndOf(l, len, size, i, rs);
      ReplacedEndOf(l, len, size, k, rs);
      SeparatedEnds(rs, len, i, k);
    }
  }

  /** The j-th replaced point is where the end of the j-th span maps to. */
  lemma ReplacedEndOf(l: seq<Selection>, len: nat, size: nat, j: nat, rs: seq<Range>)
    requires ValidList(l, size) && j < |l| && rs == Spans(l)
    ensures Ordered(rs) && Separated(rs) && j < |rs| && rs[j].hi <= size
    ensures ReplacedPoints(l, len)[j].Begin() == ReplacedPoints(l, len)[j].End() == MapPos(rs[j].hi, rs, len)
  {
    SpanOf(l, size, j);
    ReplacedPointOf(l, len, j);
  }

  /** The outcome of adding or removing a filter. */
  datatype FilterStatus = Done | DuplicateId | UnknownId

  class Editor {
    const buffer: Buffer
    /** The selection stack; its last list is the active one. */
    var stack: Stack
    var filters: seq<Filter>
    var batchLevel: nat
    /** How many times the outermost batch was opened and closed. */
    var beginEvents: nat
    var endEvents: nat

    ghost predicate Valid()
      reads this, buffer
    {
      && buffer.Valid()
      && StackValid(stack, |buffer.content|)
      && UniqueIds(filters)
      && beginEvents == endEvents + (if batchLevel > 0 then 1 else 0)
      && (batchLevel == 0 ==> !buffer.pending)
    }

    /** The active selection list. */
    function Active(): seq<Selection>
      reads this`stack
      requires |stack| > 0
    {
      stack[|stack| - 1]
    }

    /** The batch state after a verb that ran within one batch of its own,
        given the state before it and whether the verb `changed` the buffer:
        outside any batch the verb opened and closed the outermost batch,
        which committed the changed text as one undo step; inside one, the
        change stays pending. */
    ghost predicate OneBatch(level: nat, begins: nat, ends: nat, h: History, wasPending: bool, changed: bool)
      reads this, buffer
      requires h.Valid()
    {
      && batchLevel == level
      && beginEvents == begins + (if level == 0 then 1 else 0)
      && endEvents == ends + (if level == 0 then 1 else 0)
      && (level == 0 ==> buffer.history == (if changed then Commit(h, buffer.content) else h) && !buffer.pending)
      && (level > 0 ==> buffer.history == h && buffer.pending == (wasPending || changed))
    }

    /** A fresh editor over `b`: one insertion point at the buffer's start. */
    constructor(b: Buffer)
      requires b.Valid() && !b.pending
      ensures Valid() && buffer == b
      ensures stack == [[Point(0)]] && filters == []
      ensures batchLevel == 0 && beginEvents == 0 && endEvents == 0
    {
      buffer := b;
      stack := [[Point(0)]];
      filters := [];
      batchLevel := 0;
      beginEvents := 0;
      endEvents := 0;
    }

    /** Inside a batch exactly when the outermost batch was opened once
        more than it was closed. */
    function IsInBatch(): (r: bool)
      reads this, buffer
      requires Valid()
      ensures r <==> beginEvents > endEvents
    {
      batchLevel != 0
    }

    method BeginBatch()
      requires Valid()
      modifies this`batchLevel, this`beginEvents
      ensures Valid()
      ensures batchLevel == old(batchLevel) + 1
      ensures stack == old(stack) && buffer.content == old(buffer.content) && buffer.history == old(buffer.history)
      ensures beginEvents == old(beginEvents) + (if old(batchLevel) == 0 then 1 else 0)
    {
      batchLevel := batchLevel + 1;
      if batchLevel == 1 {
        beginEvents := beginEvents + 1;
      }
    }

    method EndBatch()
      requires Valid() && batchLevel > 0
      modifies this`batchLevel, this`endEvents, buffer`history, buffer`pending
      ensures Valid()
      ensures batchLevel == old(batchLevel) - 1
      ensures stack == old(stack) && buffer.content == old(buffer.content)
      ensures endEvents == old(endEvents) + (if batchLevel == 0 then 1 else 0)
      ensures batchLevel == 0 ==>
                !buffer.pending
                && buffer.history == (if old(buffer.pending) then Commit(old(buffer.history), buffer.content)
                                      else old(buffer.history))
      ensures batchLevel > 0 ==> buffer.pending == old(buffer.pending) && buffer.history == old(buffer.history)
    {
      batchLevel := batchLevel - 1;
      if batchLevel == 0 {
        endEvents := endEvents + 1;
        buffer.CommitUndoGroup();
      }
    }

    /** Replaces every range of `rs` by `s`, one after another in document
        order, each at the place the earlier replacements moved it to, and
        remaps every list of the stack after each one. The lists are not
        merged yet, so the editor's invariant is suspended here. */
    method RemapEdits(rs: seq<Range>, s: seq<char>)
      requires Ordered(rs) && Within(rs, |buffer.content|)
      modifies this`stack, buffer`content, buffer`pending
      ensures buffer.pending == (old(buffer.pending) || Changes(rs, |s|))
      ensures buffer.content == ReplaceEach(old(buffer.content), rs, s)
      ensures stack == MapStack(old(stack), rs, |s|)
    {
      ghost var buf0 := buffer.content;
      ghost var st0 := stack;
      var k := 0;
      var delta := 0;
      assert rs[..0] == [];
      MapStackEmpty(st0, |s|);
      while k < |rs|
        invariant 0 <= k <= |rs|
        invariant Ordered(rs[..k]) && Within(rs[..k], |buf0|)
        invariant delta == Off(rs[..k], |s|)
        invariant buffer.content == ReplaceEach(buf0, rs[..k], s)
        invariant buffer.pending == (old(buffer.pending) || Changes(rs[..k], |s|))
        invariant stack == MapStack(st0, rs[..k], |s|)
      {
        EditOne(buf0, st0, rs, s, k, delta);
        ChangesStep(rs, |s|, k);
        delta := delta + |s| - (rs[k].hi - rs[k].lo);
        k := k + 1;
      }
      assert rs[..k] == rs;
    }

    /** The k-th step of RemapEdits: one modification of the buffer, at the
        place where the k ranges before it moved the k-th range, and the
        remap of every list by it. */
    method EditOne(ghost buf0: seq<char>, ghost st0: Stack, rs: seq<Range>, s: seq<char>, k: nat, delta: int)
      requires Ordered(rs) && Within(rs, |buf0|) && k < |rs|
      requires Ordered(rs[..k]) && Within(rs[..k], |buf0|)
      requires delta == Off(rs[..k], |s|)
      requires buffer.content == ReplaceEach(buf0, rs[..k], s)
      requires stack == MapStack(st0, rs[..k], |s|)
      modifies this`stack, buffer`content, buffer`pending
      ensures Ordered(rs[..k + 1]) && Within(rs[..k + 1], |buf0|)
      ensures Off(rs[..k + 1], |s|) == delta + |s| - (rs[k].hi - rs[k].lo)
      ensures buffer.content == ReplaceEach(buf0, rs[..k + 1], s)
      ensures stack == MapStack(st0, rs[..k + 1], |s|)
      ensures buffer.pending == (old(buffer.pending) || |s| > 0 || rs[k].lo < rs[k].hi)
    {
      var r := rs[k];
      EditStep(buf0, st0, rs, s, k);
      var pos := r.lo + delta;
      buffer.Modify(pos, r.hi - r.lo, s);
      stack := RemapStack(stack, Modification(pos, r.hi - r.lo, |s|));
    }

    /** One pass of edits over the buffer, after which every list of the
        stack is merged again. */
    method ApplyEdits(rs: seq<Range>, s: seq<char>)
      requires Valid() && batchLevel > 0
      requires Ordered(rs) && Within(rs, |buffer.content|)
      modifies this`stack, buffer`content, buffer`pending
      ensures Valid()
      ensures buffer.pending == (old(buffer.pending) || Changes(rs, |s|))
      ensures buffer.content == ReplaceEach(old(buffer.content), rs, s)
      ensures stack == Edited(old(stack), rs, |s|)
    {
      ghost var st0, size0 := stack, |buffer.content|;
      EditedValid(st0, rs, |s|, size0);
      if !Changes(rs, |s|) {
        ReplaceEachUnchanged(buffer.content, rs, s);
      }
      RemapEdits(rs, s);
      var mapped := stack;
      stack := seq(|mapped|, t requires 0 <= t < |mapped| => Normalize(mapped[t]));
      assert stack == Edited(st0, rs, |s|);
      assert |buffer.content| == size0 + Off(rs, |s|);
    }

    method EraseNoUndo()
      requires Valid() && batchLevel > 0
      modifies this`stack, buffer`content, buffer`pending
      ensures Valid()
      ensures buffer.pending == (old(buffer.pending) || Changes(Spans(old(Active())), 0))
      ensures buffer.content == ReplaceEach(old(buffer.content), Spans(old(Active())), [])
      ensures stack == Edited(old(stack), Spans(old(Active())), 0)
    {
      ApplyEdits(Spans(Active()), []);
    }

    method InsertNoUndo(s: seq<char>)
      requires Valid() && batchLevel > 0
      modifies this`stack, buffer`content, buffer`pending
      ensures Valid()
      ensures buffer.pending == (old(buffer.pending) || Changes(Starts(old(Active())), |s|))
      ensures buffer.content == ReplaceEach(old(buffer.content), Starts(old(Active())), s)
      ensures stack == Edited(old(stack), Starts(old(Active())), |s|)
    {
      ApplyEdits(Starts(Active()), s);
    }

    method AppendNoUndo(s: seq<char>)
      requires Valid() && batchLevel > 0
      modifies this`stack, buffer`content, buffer`pending
      ensures Valid()
      ensures buffer.pending == (old(buffer.pending) || Changes(Ends(old(Active())), |s|))
      ensures buffer.content == ReplaceEach(old(buffer.content), Ends(old(Active())), s)
      ensures stack == Edited(old(stack), Ends(old(Active())), |s|)
    {
      ApplyEdits(Ends(Active()), s);
    }

    /** Removes the text of every selection, as one undo step. */
    method Erase()
      requires Valid()
      modifies this`stack, this`batchLevel, this`beginEvents, this`endEvents, buffer`content, buffer`history, buffer`pending
      ensures Valid()
      ensures buffer.content == ReplaceEach(old(buffer.content), Spans(old(Active())), [])
      ensures stack == Edited(old(stack), Spans(old(Active())), 0)
      ensures OneBatch(old(batchLevel), old(beginEvents), old(endEvents), old(buffer.history),
                       old(buffer.pending), Changes(Spans(old(Active())), 0))
    {
      ghost var st, A := stack, Active();
      BeginBatch();
      assert stack == st && Active() == A;
      EraseNoUndo();
      ghost var st1 := stack;
      assert st1 == Edited(st, Spans(A), 0);
      EndBatch();
      assert stack == st1;
    }

    /** Inserts `s` before every selection, as one undo step. */
    method Insert(s: seq<char>)
      requires Valid()
      modifies this`stack, this`batchLevel, this`beginEvents, this`endEvents, buffer`content, buffer`history, buffer`pending
      ensures Valid()
      ensures buffer.content == ReplaceEach(old(buffer.content), Starts(old(Active())), s)
      ensures stack == Edited(old(stack), Starts(old(Active())), |s|)
      ensures OneBatch(old(batchLevel), old(beginEvents), old(endEvents), old(buffer.history),
                       old(buffer.pending), Changes(Starts(old(Active())), |s|))
    {
      ghost var st, A := stack, Active();
      BeginBatch();
      assert stack == st && Active() == A;
      InsertNoUndo(s);
      ghost var st1 := stack;
      assert st1 == Edited(st, Starts(A), |s|);
      EndBatch();
      assert stack == st1;
    }

    /** Inserts `s` after every selection, as one undo step. */
    method Append(s: seq<char>)
      requires Valid()
      modifies this`stack, this`batchLevel, this`beginEvents, this`endEvents, buffer`content, buffer`history, buffer`pending
      ensures Valid()
      ensures buffer.content == ReplaceEach(old(buffer.content), Ends(old(Active())), s)
      ensures stack == Edited(old(stack), Ends(old(Active())), |s|)
      ensures OneBatch(old(batchLevel), old(beginEvents), old(endEvents), old(buffer.history),
                       old(buffer.pending), Changes(Ends(old(Active())), |s|))
    {
      ghost var st, A := stack, Active();
      BeginBatch();
      assert stack == st && Active() == A;
      AppendNoUndo(s);
      ghost var st1 := stack;
      assert st1 == Edited(st, Ends(A), |s|);
      EndBatch();
      assert stack == st1;
    }

    /** Replaces the text of every selection by `s`, one modification per
        selection, as one undo step: the active selections become points
        just past their new text and every other list is remapped. */
    method Replace(s: seq<char>)
      requires Valid()
      modifies this`stack, this`batchLevel, this`beginEvents, this`endEvents, buffer`content, buffer`history, buffer`pending
      ensures Valid()
      ensures buffer.content == ReplaceEach(old(buffer.content), Spans(old(Active())), s)
      ensures stack == SetTop(Edited(old(stack), Spans(old(Active())), |s|), ReplacedPoints(old(Active()), |s|))
      ensures OneBatch(old(batchLevel), old(beginEvents), old(endEvents), old(buffer.history),
                       old(buffer.pending), Changes(Spans(old(Active())), |s|))
    {
      ghost var st, A := stack, Active();
      BeginBatch();
      assert stack == st && Active() == A;
      ReplaceNoUndo(s);
      ghost var st1 := stack;
      EndBatch();
      assert stack == st1;
    }

    /** The single pass of replace, inside a batch. */
    method ReplaceNoUndo(s: seq<char>)
      requires Valid() && batchLevel > 0
      modifies this`stack, buffer`content, buffer`pending
      ensures Valid()
      ensures buffer.pending == (old(buffer.pending) || Changes(Spans(old(Active())), |s|))
      ensures buffer.content == ReplaceEach(old(buffer.content), Spans(old(Active())), s)
      ensures stack == SetTop(Edited(old(stack), Spans(old(Active())), |s|), ReplacedPoints(old(Active()), |s|))
    {
      var A := Active();
      var rs := Spans(A);
      ghost var size0 := |buffer.content|;
      FitsOrdered(A, rs, size0);
      ReplacedPointsValid(A, |s|, size0);
      ApplyEdits(rs, s);
      assert |buffer.content| == size0 + Off(rs, |s|);
      SetActive(ReplacedPoints(A, |s|));
    }

    /** Makes a valid list of the buffer the active list. */
    method SetActive(l: seq<Selection>)
      requires Valid() && ValidList(l, |buffer.content|)
      modifies this`stack
      ensures Valid()
      ensures stack == SetTop(old(stack), l)
    {
      SetTopValid(stack, l, |buffer.content|);
      stack := SetTop(stack, l);
    }

    method PushSelections()
      requires Valid()
      modifies this`stack
      ensures Valid()
      ensures stack == old(stack) + [old(Active())]
    {
      stack := stack + [Active()];
    }

    /** Drops the active list, exposing the one pushed before it; refused
        when it is the only list. */
    method PopSelections() returns (done: bool)
      requires Valid()
      modifies this`stack
      ensures Valid()
      ensures done == (|old(stack)| > 1)
      ensures done ==> stack == old(stack)[..|old(stack)| - 1]
      ensures !done ==> stack == old(stack)
    {
      done := |stack| > 1;
      if done {
        stack := stack[..|stack| - 1];
      }
    }

    /** Moves every selection by `offset`, clamped to the buffer; with
        `append` the moved selections join the originals. */
    method MoveSelections(offset: int, append: bool)
      requires Valid()
      modifies this`stack
      ensures Valid()
      ensures var moved := MoveAll(old(Active()), offset, |buffer.content|);
              stack == SetTop(old(stack), Normalize(if append then old(Active()) + moved else moved))
    {
      var size := |buffer.content|;
      var moved := MoveAll(Active(), offset, size);
      var l := if append then Active() + moved else moved;
      NormalizeInBounds(l, size);
      SetTopValid(stack, Normalize(l), size);
      stack := SetTop(stack, Normalize(l));
    }

    /** Leaves a single insertion point at the start of the first selection. */
    method ClearSelections()
      requires Valid()
      modifies this`stack
      ensures Valid()
      ensures stack == SetTop(old(stack), [Point(old(Active())[0].Begin())])
    {
      var l := [Point(Active()[0].Begin())];
      SetTopValid(stack, l, |buffer.content|);
      stack := SetTop(stack, l);
    }

    /** Keeps only the selection at `index`; refused when `index` is not a
        position of the active list. */
    method KeepSelection(index: int) returns (done: bool)
      requires Valid()
      modifies this`stack
      ensures Valid()
      ensures done == (0 <= index < |old(Active())|)
      ensures done ==> stack == SetTop(old(stack), [old(Active())[index]])
      ensures !done ==> stack == old(stack)
    {
      done := 0 <= index < |Active()|;
      if done {
        var l := [Active()[index]];
        SetTopValid(stack, l, |buffer.content|);
        stack := SetTop(stack, l);
      }
    }

    /** Makes a single insertion point at `p` the active list. */
    method SelectAt(p: nat)
      requires Valid() && p <= |buffer.content|
      modifies this`stack
      ensures Valid()
      ensures stack == SetTop(old(stack), [Point(p)])
    {
      SetTopValid(stack, [Point(p)], |buffer.content|);
      stack := SetTop(stack, [Point(p)]);
    }

    /** Replaces every selection by what `selector` computes for it, or adds
        those to the list with `append`; the list is merged again. */
    method Select(selector: Selection -> Selection, append: bool)
      requires Valid()
      requires forall j :: 0 <= j < |Active()| ==> selector(Active()[j]).End() <= |buffer.content|
      modifies this`stack
      ensures Valid()
      ensures var computed := Selected(old(Active()), selector);
              stack == SetTop(old(stack), Normalize(if append then old(Active()) + computed else computed))
    {
      var size := |buffer.content|;
      var computed := Selected(Active(), selector);
      var l := if append then Active() + computed else computed;
      NormalizeInBounds(l, size);
      SetTopValid(stack, Normalize(l), size);
      stack := SetTop(stack, Normalize(l));
    }

    /** Replaces the active list by everything `ms` finds in its selections,
        merged; refused when it finds nothing. */
    method MultiSelect(ms: Selection -> seq<Selection>) returns (done: bool)
      requires Valid()
      requires forall j :: 0 <= j < |Active()| ==> InBounds(ms(Active()[j]), |buffer.content|)
      modifies this`stack
      ensures Valid()
      ensures done == (|Gather(old(Active()), ms)| > 0)
      ensures done ==> stack == SetTop(old(stack), Normalize(Gather(old(Active()), ms)))
      ensures !done ==> stack == old(stack)
    {
      var size := |buffer.content|;
      var found := Gather(Active(), ms);
      done := |found| > 0;
      if done {
        GatherInBounds(Active(), ms, size);
        NormalizeInBounds(found, size);
        SetTopValid(stack, Normalize(found), size);
        stack := SetTop(stack, Normalize(found));
      }
    }

    /** Steps the buffer back one undo step, then brings every list back
        within the buffer; false when there is nothing to undo. Edits still
        pending in an open batch are first recorded as a step of their own,
        so that step is the one undone. */
    method Undo() returns (done: bool)
      requires Valid()
      modifies this`stack, buffer`history, buffer`content, buffer`pending
      ensures Valid() && !buffer.pending
      ensures var h := Settled(old(buffer.history), old(buffer.content), old(buffer.pending));
              && done == CanUndo(h)
              && (done ==> buffer.history == StepBack(h)
                           && buffer.content == Text(buffer.history)
                           && stack == Resync(old(stack), |buffer.content|))
              && (!done ==> buffer.history == h
                            && buffer.content == old(buffer.content) && stack == old(stack))
    {
      done := buffer.Undo();
      if done {
        ResyncValid(stack, |buffer.content|);
        stack := Resync(stack, |buffer.content|);
      }
    }

    /** Steps the buffer forward one undo step, then brings every list back
        within the buffer; false when there is nothing to redo. Edits still
        pending in an open batch are first recorded as a step of their own,
        which leaves nothing to redo. */
    method Redo() returns (done: bool)
      requires Valid()
      modifies this`stack, buffer`history, buffer`content, buffer`pending
      ensures Valid() && !buffer.pending
      ensures var h := Settled(old(buffer.history), old(buffer.content), old(buffer.pending));
              && done == CanRedo(h)
              && (done ==> buffer.history == StepForward(h)
                           && buffer.content == Text(buffer.history)
                           && stack == Resync(old(stack), |buffer.content|))
              && (!done ==> buffer.history == h
                            && buffer.content == old(buffer.content) && stack == old(stack))
    {
      done := buffer.Redo();
      if done {
        ResyncValid(stack, |buffer.content|);
        stack := Resync(stack, |buffer.content|);
      }
    }

    /** Registers `f` after the others; refused when its id is taken. */
    method AddFilter(f: Filter) returns (status: FilterStatus)
      requires Valid()
      modifies this`filters
      ensures Valid()
      ensures status == (if HasId(old(filters), f.id) then DuplicateId else Done)
      ensures status == Done ==> filters == old(filters) + [f]
      ensures status != Done ==> filters == old(filters)
    {
      if HasId(filters, f.id) {
        status := DuplicateId;
      } else {
        assert forall i :: 0 <= i < |filters| ==> filters[i].id != f.id;
        filters := filters + [f];
        status := Done;
      }
    }

    /** Unregisters the filter named `id`; refused when there is none. */
    method RemoveFilter(id: string) returns (status: FilterStatus)
      requires Valid()
      modifies this`filters
      ensures Valid()
      ensures status == (if HasId(old(filters), id) then Done else UnknownId)
      ensures status == Done ==> filters == Without(old(filters), id)
      ensures status != Done ==> filters == old(filters)
    {
      if HasId(filters, id) {
        WithoutKeepsOthers(filters, id);
        filters := Without(filters, id);
        status := Done;
      } else {
        status := UnknownId;
      }
    }

    /** The ids of the registered filters that start with the first
        `cursorPos` characters of `prefix` (all of it when it is shorter),
        in registration order. */
    method CompleteFilterId(prefix: string, cursorPos: nat) returns (r: seq<string>)
      ensures r == Completions(filters, prefix[..if cursorPos < |prefix| then cursorPos else |prefix|])
    {
      var p := prefix[..if cursorPos < |prefix| then cursorPos else |prefix|];
      r := [];
      var k := 0;
      while k < |filters|
        invariant 0 <= k <= |filters|
        invariant r == Completions(filters[..k], p)
      {
        assert filters[..k + 1][..k] == filters[..k];
        if IsPrefix(p, filters[k].id) {
          r := r + [filters[k].id];
        }
        k := k + 1;
      }
      assert filters[..k] == filters;
    }
  }

  /** Undo inside an open batch takes back exactly the edits made in it so
      far, and redo brings them back; closing the batch then records no
      further step. */
  method UndoInsideBatch(e: Editor, s: seq<char>) returns (undone: seq<char>, redone: seq<char>)
    requires e.Valid() && e.batchLevel == 0 && |s| > 0
    modifies e, e.buffer
    ensures e.Valid() && e.batchLevel == 0
    ensures undone == old(e.buffer.content)
    ensures redone == ReplaceEach(old(e.buffer.content), Starts(old(e.Active())), s)
    ensures e.buffer.content == redone && e.buffer.history == Commit(old(e.buffer.history), redone)
  {
    ghost var h := e.buffer.history;
    e.BeginBatch();
    ChangesWhen(Starts(e.Active()), |s|);
    e.InsertNoUndo(s);
    UndoPending(h, e.buffer.content);
    var done := e.Undo();
    undone := e.buffer.content;
    done := e.Redo();
    redone := e.buffer.content;
    e.EndBatch();
  }

  /** A non-empty insert made outside any batch is one undo step: undoing
      it brings back the text from before it, and it can be redone. An empty
      insert records no step, so the undo after it steps back past the
      steps before it. */
  method InsertThenUndo(e: Editor, s: seq<char>) returns (done: bool)
    requires e.Valid() && e.batchLevel == 0
    modifies e, e.buffer
    ensures e.Valid()
    ensures |s| > 0 ==> done && e.buffer.content == old(e.buffer.content) && CanRedo(e.buffer.history)
    ensures |s| == 0 ==> done == CanUndo(old(e.buffer.history))
  {
    ghost var h := e.buffer.history;
    ChangesWhen(Starts(e.Active()), |s|);
    e.Insert(s);
    UndoAfterCommit(h, e.buffer.content);
    done := e.Undo();
  }
}
