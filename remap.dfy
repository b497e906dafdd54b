/** How buffer modifications move positions, and what one pass of edits
    over every selection of a list does to the text and to every position. */
module Remap {
  import opened Selections

  /** One buffer change: `removed` characters at `pos` are replaced by
      `inserted` characters. */
  datatype Modification = Modification(pos: nat, removed: nat, inserted: nat)

  /** Where position `p` lands after `m`: before the change it stays, inside
      the removed text it is clamped to the change's start, and at or after
      the removed text it moves by the change in length. An insertion point
      at the very place of an insertion therefore ends up after the new text. */
  function RemapPos(p: nat, m: Modification): (r: nat)
    ensures p < m.pos ==> r == p
    ensures m.pos <= p ==> r == m.pos || m.pos + m.inserted <= r
    ensures m.pos + m.removed <= p ==> r - (m.pos + m.inserted) == p - (m.pos + m.removed)
  {
    if p < m.pos then p
    else if p < m.pos + m.removed then m.pos
    else p - m.removed + m.inserted
  }

  function RemapSel(x: Selection, m: Modification): Selection {
    Selection(RemapPos(x.anchor, m), RemapPos(x.cursor, m))
  }

  function RemapList(l: seq<Selection>, m: Modification): (r: seq<Selection>)
    ensures |r| == |l|
  {
    seq(|l|, j requires 0 <= j < |l| => RemapSel(l[j], m))
  }

  /** Every later position lands no earlier than every earlier one. */
  lemma RemapMonotone(p1: nat, p2: nat, m: Modification)
    requires p1 <= p2
    ensures RemapPos(p1, m) <= RemapPos(p2, m)
  {
  }

  /** The half-open range [lo, hi) of the buffer that one edit replaces. */
  datatype Range = Range(lo: nat, hi: nat)

  /** Well-formed ranges in document order, none overlapping the next. */
  predicate Ordered(rs: seq<Range>) {
    && (forall i :: 0 <= i < |rs| ==> rs[i].lo <= rs[i].hi)
    && (forall i, j :: 0 <= i < j < |rs| ==> rs[i].hi <= rs[j].lo)
  }

  predicate Within(rs: seq<Range>, size: nat) {
    forall i :: 0 <= i < |rs| ==> rs[i].hi <= size
  }

  /** Replacing every range of `rs` by a text of length `len` changes the
      buffer: there is a range and the text is not empty, or some range
      removes a character. */
  predicate Changes(rs: seq<Range>, len: nat)
    decreases |rs|
  {
    && |rs| > 0
    && (Changes(rs[..|rs| - 1], len) || len > 0 || rs[|rs| - 1].lo < rs[|rs| - 1].hi)
  }

  /** One range more changes the buffer exactly when the ranges before it
      did or that range does. */
  lemma ChangesStep(rs: seq<Range>, len: nat, k: nat)
    requires k < |rs|
    ensures Changes(rs[..k + 1], len) == (Changes(rs[..k], len) || len > 0 || rs[k].lo < rs[k].hi)
  {
    assert rs[..k + 1][..k] == rs[..k];
  }

  /** A non-empty text typed at one place or more changes the buffer; with
      nothing typed, only a range that removes something does. */
  lemma {:induction false} ChangesWhen(rs: seq<Range>, len: nat)
    ensures len > 0 ==> (Changes(rs, len) <==> |rs| > 0)
    ensures len == 0 ==> (Changes(rs, len) <==> exists i :: 0 <= i < |rs| && rs[i].lo < rs[i].hi)
    decreases |rs|
  {
    if |rs| > 0 {
      var init := rs[..|rs| - 1];
      ChangesWhen(init, len);
      if len == 0 {
        if exists i :: 0 <= i < |rs| && rs[i].lo < rs[i].hi {
          var i :| 0 <= i < |rs| && rs[i].lo < rs[i].hi;
          if i < |init| {
            assert init[i] == rs[i];
          }
        }
        if exists i :: 0 <= i < |init| && init[i].lo < init[i].hi {
          var i :| 0 <= i < |init| && init[i].lo < init[i].hi;
          assert rs[i] == init[i];
        }
      }
    }
  }

  lemma OrderedPrefix(rs: seq<Range>, k: nat)
    requires Ordered(rs) && k <= |rs|
    ensures Ordered(rs[..k])
  {
  }

  /** Net change of the buffer's length once every range of `rs` is
      replaced by `len` characters. */
  function Off(rs: seq<Range>, len: nat): int {
    if |rs| == 0 then 0 else Off(rs[..|rs| - 1], len) + len - (rs[|rs| - 1].hi - rs[|rs| - 1].lo)
  }

  /** How many ranges end at or before `p`: since the ranges are ordered
      these form a prefix. */
  function Count(rs: seq<Range>, p: nat): (c: nat)
    requires Ordered(rs)
    ensures c <= |rs|
    ensures forall i :: 0 <= i < c ==> rs[i].hi <= p
    ensures c < |rs| ==> p < rs[c].hi
  {
    if |rs| == 0 then 0
    else if rs[|rs| - 1].hi <= p then |rs|
    else Count(rs[..|rs| - 1], p)
  }

  /** Once the ranges before it are replaced, range `c` (and the end of
      range `c - 1`) still lies at a position, never before the buffer. */
  lemma {:induction false} ShiftNonNeg(rs: seq<Range>, c: nat, len: nat)
    requires Ordered(rs) && c <= |rs|
    ensures c > 0 ==> rs[c - 1].hi + Off(rs[..c], len) >= 0
    ensures c < |rs| ==> rs[c].lo + Off(rs[..c], len) >= 0
  {
    if c > 0 {
      ShiftNonNeg(rs, c - 1, len);
      assert rs[..c][..c - 1] == rs[..c - 1];
    }
  }

  /** Where range `k` starts once the ranges before it are replaced grows
      with `k`, by at least the inserted length per range. */
  lemma {:induction false} GapMonotone(rs: seq<Range>, i: nat, k: nat, len: nat)
    requires Ordered(rs) && i <= k < |rs|
    ensures rs[i].lo + Off(rs[..i], len) + (if i < k then len else 0) <= rs[k].lo + Off(rs[..k], len)
    decreases k
  {
    if i < k {
      GapMonotone(rs, i, k - 1, len);
      assert rs[..k][..k - 1] == rs[..k - 1];
    }
  }

  /** Where the original position `p` lands after every range of `rs`
      has been replaced by `len` characters, stated in the original
      coordinates: shifted by the net change of the ranges ending at or
      before it, or clamped to the start of the range it lies inside. */
  function MapPos(p: nat, rs: seq<Range>, len: nat): nat
    requires Ordered(rs)
  {
    var c := Count(rs, p);
    ShiftNonNeg(rs, c, len);
    (if c < |rs| && rs[c].lo < p then rs[c].lo else p) + Off(rs[..c], len)
  }

  /** The modification that replaces range `r` once the ranges `P` before it
      have been replaced, in the buffer's coordinates at that moment. */
  function EditAfter(P: seq<Range>, r: Range, len: nat): (m: Modification)
    requires Ordered(P + [r])
    ensures m.removed == r.hi - r.lo && m.inserted == len
  {
    assert (P + [r])[..|P|] == P;
    ShiftNonNeg(P + [r], |P|, len);
    Modification(r.lo + Off(P, len), r.hi - r.lo, len)
  }

  /** No position lands beyond where the range that follows it starts,
      less the text inserted for that range. */
  lemma MapPosBelowRange(p: nat, rs: seq<Range>, len: nat)
    requires Ordered(rs)
    requires Count(rs, p) < |rs|
    ensures MapPos(p, rs, len) <= rs[Count(rs, p)].lo + Off(rs[..Count(rs, p)], len)
  {
  }

  /** A position at or after the next range has moved by the net change
      of every earlier range. */
  lemma StepAtOrAfter(P: seq<Range>, r: Range, p: nat, len: nat)
    requires Ordered(P + [r]) && r.lo <= p
    ensures Ordered(P)
    ensures MapPos(p, P, len) == p + Off(P, len)
    ensures MapPos(p, P + [r], len) == RemapPos(MapPos(p, P, len), EditAfter(P, r, len))
  {
    var Q := P + [r];
    assert Q[..|P|] == P;
    OrderedPrefix(Q, |P|);
    forall i | 0 <= i < |P| ensures P[i].hi <= r.lo {
      assert Q[i] == P[i] && Q[|P|] == r;
    }
    assert Count(P, p) == |P|;
    assert P[..|P|] == P;
    if r.hi <= p {
      assert Count(Q, p) == |Q|;
      assert Q[..|Q|] == Q;
      assert Off(Q, len) == Off(P, len) + len - (r.hi - r.lo);
    } else {
      assert Count(Q, p) == |P|;
    }
  }

  /** A position before the next range is left where it is, and the edit
      of that range does not move it either. */
  lemma StepBefore(P: seq<Range>, r: Range, p: nat, len: nat)
    requires Ordered(P + [r]) && p < r.lo
    ensures Ordered(P)
    ensures MapPos(p, P + [r], len) == MapPos(p, P, len)
    ensures RemapPos(MapPos(p, P, len), EditAfter(P, r, len)) == MapPos(p, P, len)
  {
    var Q := P + [r];
    assert Q[..|P|] == P;
    OrderedPrefix(Q, |P|);
    var c := Count(P, p);
    assert Q[..c] == P[..c];
    assert Count(Q, p) == c;
    if c < |P| {
      assert Q[c] == P[c];
      MapPosBelowRange(p, P, len);
      GapMonotone(Q, c, |P|, len);
      assert MapPos(p, P, len) + len <= EditAfter(P, r, len).pos;
    } else {
      assert P[..c] == P;
      assert MapPos(p, P, len) < EditAfter(P, r, len).pos;
    }
  }

  /** The closed form agrees with applying the edits one after another:
      replacing one more range moves every mapped position exactly as the
      single-step rule RemapPos says. */
  lemma Step(P: seq<Range>, r: Range, p: nat, len: nat)
    requires Ordered(P + [r])
    ensures Ordered(P)
    ensures MapPos(p, P + [r], len) == RemapPos(MapPos(p, P, len), EditAfter(P, r, len))
    ensures p < r.lo ==> MapPos(p, P + [r], len) == MapPos(p, P, len)
    ensures r.lo <= p ==> MapPos(p, P, len) == p + Off(P, len)
  {
    if r.lo <= p {
      StepAtOrAfter(P, r, p, len);
    } else {
      StepBefore(P, r, p, len);
    }
  }

  /** A position before every range stays where it is; one past every
      range moves by the net change of them all. */
  lemma MapPosOutside(p: nat, rs: seq<Range>, len: nat)
    requires Ordered(rs)
    ensures (forall i :: 0 <= i < |rs| ==> p < rs[i].lo) ==> MapPos(p, rs, len) == p
    ensures (forall i :: 0 <= i < |rs| ==> rs[i].hi <= p) ==> MapPos(p, rs, len) == p + Off(rs, len)
  {
    assert rs[..|rs|] == rs;
  }

  /** Mapping keeps the order of positions. */
  lemma {:induction false} MapPosMonotone(p1: nat, p2: nat, rs: seq<Range>, len: nat)
    requires Ordered(rs) && p1 <= p2
    ensures MapPos(p1, rs, len) <= MapPos(p2, rs, len)
  {
    var c1, c2 := Count(rs, p1), Count(rs, p2);
    if c1 < c2 {
      MapPosBelowRange(p1, rs, len);
      GapMonotone(rs, c1, c2 - 1, len);
      assert rs[..c2][..c2 - 1] == rs[..c2 - 1];
      assert Off(rs[..c2], len) == Off(rs[..c2 - 1], len) + len - (rs[c2 - 1].hi - rs[c2 - 1].lo);
      assert MapPos(p2, rs, len) >= rs[c2 - 1].hi + Off(rs[..c2], len);
    }
  }

  /** With only empty ranges the net change only grows along the list. */
  lemma {:induction false} OffGrows(rs: seq<Range>, i: nat, k: nat, len: nat)
    requires i <= k <= |rs|
    requires forall j :: 0 <= j < |rs| ==> rs[j].lo == rs[j].hi
    ensures Off(rs[..i], len) <= Off(rs[..k], len)
    decreases k
  {
    if i < k {
      OffGrows(rs, i, k - 1, len);
      assert rs[..k][..k - 1] == rs[..k - 1];
    }
  }

  /** When every range is empty (pure insertions), distinct positions stay distinct. */
  lemma {:induction false} MapPosStrict(p1: nat, p2: nat, rs: seq<Range>, len: nat)
    requires Ordered(rs) && p1 < p2
    requires forall i :: 0 <= i < |rs| ==> rs[i].lo == rs[i].hi
    ensures MapPos(p1, rs, len) < MapPos(p2, rs, len)
  {
    var c1, c2 := Count(rs, p1), Count(rs, p2);
    assert MapPos(p1, rs, len) == p1 + Off(rs[..c1], len);
    assert MapPos(p2, rs, len) == p2 + Off(rs[..c2], len);
    OffGrows(rs, c1, c2, len);
  }

  /** The end of the buffer maps to the end of the edited buffer. */
  lemma MapPosEnd(rs: seq<Range>, len: nat, size: nat)
    requires Ordered(rs) && Within(rs, size)
    ensures MapPos(size, rs, len) == size + Off(rs, len)
  {
    assert rs[..|rs|] == rs;
  }

  /** The buffer once every range of `rs` is replaced by `s`, all at once,
      in the original coordinates. */
  function ReplaceEach(buf: seq<char>, rs: seq<Range>, s: seq<char>): (r: seq<char>)
    requires Ordered(rs) && Within(rs, |buf|)
    ensures |r| == |buf| + Off(rs, |s|)
    decreases |rs|
  {
    if |rs| == 0 then buf
    else
      var last := rs[|rs| - 1];
      ReplaceEach(buf[..last.lo], rs[..|rs| - 1], s) + s + buf[last.hi..]
  }

  /** A pass that changes nothing leaves the text as it was. */
  lemma {:induction false} ReplaceEachUnchanged(buf: seq<char>, rs: seq<Range>, s: seq<char>)
    requires Ordered(rs) && Within(rs, |buf|) && !Changes(rs, |s|)
    ensures ReplaceEach(buf, rs, s) == buf
    decreases |rs|
  {
    if |rs| > 0 {
      var init, last := rs[..|rs| - 1], rs[|rs| - 1];
      OrderedPrefix(rs, |rs| - 1);
      assert !Changes(init, |s|) by {
        ChangesStep(rs, |s|, |rs| - 1);
        assert rs[..|rs|] == rs;
      }
      assert s == [] && last.lo == last.hi by {
        assert !(|s| > 0 || last.lo < last.hi);
      }
      ReplaceEachUnchanged(buf[..last.lo], init, s);
      assert buf[..last.lo] + buf[last.hi..] == buf;
    }
  }

  /** Text past every range is untouched by ReplaceEach. */
  lemma {:induction false} ReplaceEachSplit(buf: seq<char>, rs: seq<Range>, s: seq<char>, p: nat)
    requires Ordered(rs) && Within(rs, p) && p <= |buf|
    ensures ReplaceEach(buf, rs, s) == ReplaceEach(buf[..p], rs, s) + buf[p..]
  {
    if |rs| == 0 {
      assert buf == buf[..p] + buf[p..];
    } else {
      var last := rs[|rs| - 1];
      assert buf[..p][..last.lo] == buf[..last.lo];
      assert buf[..p][last.hi..] + buf[p..] == buf[last.hi..];
    }
  }

  /** One step of ReplaceEach: its last range replaced, after the others. */
  lemma ReplaceEachLast(buf: seq<char>, rs: seq<Range>, s: seq<char>)
    requires Ordered(rs) && Within(rs, |buf|) && |rs| > 0
    ensures Ordered(rs[..|rs| - 1]) && Within(rs[..|rs| - 1], rs[|rs| - 1].lo)
    ensures ReplaceEach(buf, rs, s)
         == ReplaceEach(buf[..rs[|rs| - 1].lo], rs[..|rs| - 1], s) + s + buf[rs[|rs| - 1].hi..]
  {
  }

  /** A character after the last range moves by the net change of all ranges. */
  lemma KeepsTextAfterLast(buf: seq<char>, rs: seq<Range>, s: seq<char>, p: nat)
    requires Ordered(rs) && Within(rs, |buf|) && p < |buf| && |rs| > 0
    requires rs[|rs| - 1].hi <= p
    ensures MapPos(p, rs, |s|) < |ReplaceEach(buf, rs, s)|
    ensures ReplaceEach(buf, rs, s)[MapPos(p, rs, |s|)] == buf[p]
  {
    var n := |rs|;
    var P, r := rs[..n - 1], rs[n - 1];
    ReplaceEachLast(buf, rs, s);
    assert Count(rs, p) == n;
    assert rs[..n] == rs;
    var front := ReplaceEach(buf[..r.lo], P, s);
    var tail := buf[r.hi..];
    var i := |front| + |s| + (p - r.hi);
    assert MapPos(p, rs, |s|) == i;
    assert (front + s + tail)[i] == tail[p - r.hi];
  }

  /** A character the ranges before the last one put at `i` stays there
      once the last range is replaced. */
  lemma KeepsChar(buf: seq<char>, rs: seq<Range>, s: seq<char>, i: nat)
    requires Ordered(rs) && Within(rs, |buf|) && |rs| > 0
    requires Ordered(rs[..|rs| - 1]) && Within(rs[..|rs| - 1], rs[|rs| - 1].lo)
    requires i < |ReplaceEach(buf[..rs[|rs| - 1].lo], rs[..|rs| - 1], s)|
    ensures i < |ReplaceEach(buf, rs, s)|
    ensures ReplaceEach(buf, rs, s)[i] == ReplaceEach(buf[..rs[|rs| - 1].lo], rs[..|rs| - 1], s)[i]
  {
    var n := |rs|;
    ReplaceEachLast(buf, rs, s);
    var front := ReplaceEach(buf[..rs[n - 1].lo], rs[..n - 1], s);
    assert (front + s + buf[rs[n - 1].hi..])[i] == front[i];
  }

  /** A character before the last range stays where the ranges before
      it put it. */
  lemma KeepsTextBeforeLast(buf: seq<char>, rs: seq<Range>, s: seq<char>, p: nat)
    requires Ordered(rs) && Within(rs, |buf|) && |rs| > 0 && p < rs[|rs| - 1].lo
    requires Ordered(rs[..|rs| - 1]) && Within(rs[..|rs| - 1], rs[|rs| - 1].lo)
    requires MapPos(p, rs[..|rs| - 1], |s|) < |ReplaceEach(buf[..rs[|rs| - 1].lo], rs[..|rs| - 1], s)|
    requires ReplaceEach(buf[..rs[|rs| - 1].lo], rs[..|rs| - 1], s)[MapPos(p, rs[..|rs| - 1], |s|)] == buf[p]
    ensures MapPos(p, rs, |s|) < |ReplaceEach(buf, rs, s)|
    ensures ReplaceEach(buf, rs, s)[MapPos(p, rs, |s|)] == buf[p]
  {
    var n := |rs|;
    assert rs[..n - 1] + [rs[n - 1]] == rs;
    Step(rs[..n - 1], rs[n - 1], p, |s|);
    KeepsChar(buf, rs, s, MapPos(p, rs[..n - 1], |s|));
  }

  /** ReplaceEach keeps every character outside the replaced ranges, at the
      place MapPos gives for it. */
  lemma {:induction false} ReplaceEachKeepsText(buf: seq<char>, rs: seq<Range>, s: seq<char>, p: nat)
    requires Ordered(rs) && Within(rs, |buf|) && p < |buf|
    requires forall i :: 0 <= i < |rs| ==> !(rs[i].lo <= p < rs[i].hi)
    ensures MapPos(p, rs, |s|) < |ReplaceEach(buf, rs, s)|
    ensures ReplaceEach(buf, rs, s)[MapPos(p, rs, |s|)] == buf[p]
    decreases |rs|
  {
    if |rs| > 0 {
      var n := |rs|;
      var P, r := rs[..n - 1], rs[n - 1];
      if p >= r.hi {
        KeepsTextAfterLast(buf, rs, s, p);
      } else {
        ReplaceEachLast(buf, rs, s);
        forall i | 0 <= i < |P| ensures !(P[i].lo <= p < P[i].hi) {
          assert P[i] == rs[i];
        }
        ReplaceEachKeepsText(buf[..r.lo], P, s, p);
        KeepsTextBeforeLast(buf, rs, s, p);
      }
    }
  }

  /** A prefix of a prefix. */
  lemma TakeTake<T>(a: seq<T>, n: nat, k: nat)
    requires k < n <= |a|
    ensures a[..n][..k] == a[..k] && a[..n][k] == a[k]
  {
  }

  /** A slice within the front part of a concatenation. */
  lemma SliceOfFront<T>(whole: seq<T>, a: seq<T>, b: seq<T>, c: seq<T>, q: nat, t: seq<T>)
    requires whole == a + b + c && q + |t| <= |a| && a[q..q + |t|] == t
    ensures q + |t| <= |whole| && whole[q..q + |t|] == t
  {
    assert whole[q..q + |t|] == a[q..q + |t|];
  }

  /** The text inserted for the last range sits right after the result of
      the ranges before it. */
  lemma InsertsAtLast(buf: seq<char>, rs: seq<Range>, s: seq<char>, q: nat)
    requires Ordered(rs) && Within(rs, |buf|) && |rs| > 0
    requires q == rs[|rs| - 1].lo + Off(rs[..|rs| - 1], |s|)
    ensures q + |s| <= |ReplaceEach(buf, rs, s)|
    ensures ReplaceEach(buf, rs, s)[q..q + |s|] == s
  {
    var n := |rs|;
    ReplaceEachLast(buf, rs, s);
    var front := ReplaceEach(buf[..rs[n - 1].lo], rs[..n - 1], s);
    assert |front| == q;
    assert (front + s + buf[rs[n - 1].hi..])[q..q + |s|] == s;
  }

  /** Text already in the result of the ranges before the last stays where
      it is once the last range is replaced. */
  lemma KeepsFront(buf: seq<char>, rs: seq<Range>, s: seq<char>, q: nat, t: seq<char>)
    requires Ordered(rs) && Within(rs, |buf|) && |rs| > 0
    requires Ordered(rs[..|rs| - 1]) && Within(rs[..|rs| - 1], rs[|rs| - 1].lo)
    requires q + |t| <= |ReplaceEach(buf[..rs[|rs| - 1].lo], rs[..|rs| - 1], s)|
    requires ReplaceEach(buf[..rs[|rs| - 1].lo], rs[..|rs| - 1], s)[q..q + |t|] == t
    ensures q + |t| <= |ReplaceEach(buf, rs, s)|
    ensures ReplaceEach(buf, rs, s)[q..q + |t|] == t
  {
    var n := |rs|;
    ReplaceEachLast(buf, rs, s);
    var front := ReplaceEach(buf[..rs[n - 1].lo], rs[..n - 1], s);
    SliceOfFront(ReplaceEach(buf, rs, s), front, s, buf[rs[n - 1].hi..], q, t);
  }

  /** ReplaceEach puts `s` exactly at `q`, where range `k` begins once the
      ranges before it are replaced. */
  lemma {:induction false} ReplaceEachInserts(buf: seq<char>, rs: seq<Range>, s: seq<char>, k: nat, q: nat)
    requires Ordered(rs) && Within(rs, |buf|) && k < |rs|
    requires q == rs[k].lo + Off(rs[..k], |s|)
    ensures q + |s| <= |ReplaceEach(buf, rs, s)|
    ensures ReplaceEach(buf, rs, s)[q..q + |s|] == s
    decreases |rs|
  {
    var n := |rs|;
    if k == n - 1 {
      InsertsAtLast(buf, rs, s, q);
    } else {
      var P := rs[..n - 1];
      TakeTake(rs, n - 1, k);
      ReplaceEachLast(buf, rs, s);
      ReplaceEachInserts(buf[..rs[n - 1].lo], P, s, k, q);
      KeepsFront(buf, rs, s, q, s);
    }
  }

  /** The end of a replaced range lands just past the text that replaced
      it, when the next range ends strictly later. */
  lemma MapPosRangeEnd(rs: seq<Range>, j: nat, len: nat)
    requires Ordered(rs) && j < |rs|
    requires j + 1 < |rs| ==> rs[j].hi < rs[j + 1].hi
    ensures rs[j].lo + Off(rs[..j], len) >= 0
    ensures MapPos(rs[j].hi, rs, len) == rs[j].lo + Off(rs[..j], len) + len
  {
    var p := rs[j].hi;
    var c := Count(rs, p);
    ShiftNonNeg(rs, j, len);
    assert c == j + 1;
    assert rs[..j + 1][..j] == rs[..j];
  }

  /** No range touches the next one. */
  predicate Separated(rs: seq<Range>) {
    forall i :: 0 < i < |rs| ==> rs[i - 1].hi < rs[i].lo
  }

  /** Where range `k` starts once the ranges before it are replaced lies
      strictly past the replacement of every earlier range when no two
      ranges touch. */
  lemma {:induction false} GapStrict(rs: seq<Range>, i: nat, k: nat, len: nat)
    requires Ordered(rs) && Separated(rs) && i < k < |rs|
    ensures rs[i].lo + Off(rs[..i], len) + len < rs[k].lo + Off(rs[..k], len)
    decreases k
  {
    assert rs[..k][..k - 1] == rs[..k - 1];
    if i < k - 1 {
      GapStrict(rs, i, k - 1, len);
    }
  }

  /** The ends of separated ranges stay strictly ordered once replaced. */
  lemma SeparatedEnds(rs: seq<Range>, len: nat, i: nat, k: nat)
    requires Ordered(rs) && Separated(rs) && i < k < |rs|
    ensures MapPos(rs[i].hi, rs, len) < MapPos(rs[k].hi, rs, len)
  {
    ShiftNonNeg(rs, i, len);
    ShiftNonNeg(rs, k, len);
    MapPosRangeEnd(rs, i, len);
    MapPosRangeEnd(rs, k, len);
    GapStrict(rs, i, k, len);
  }

  /** Replacing separated ranges puts `s` at `q`, where range `j` begins
      once the ranges before it are replaced, and the end of range `j` just
      past that copy. */
  lemma RangeLands(buf: seq<char>, rs: seq<Range>, s: seq<char>, j: nat, q: int)
    requires Ordered(rs) && Separated(rs) && Within(rs, |buf|) && j < |rs|
    requires q == rs[j].lo + Off(rs[..j], |s|)
    ensures q >= 0
    ensures q + |s| <= |ReplaceEach(buf, rs, s)|
    ensures ReplaceEach(buf, rs, s)[q..q + |s|] == s
    ensures MapPos(rs[j].hi, rs, |s|) == q + |s|
  {
    ShiftNonNeg(rs, j, |s|);
    ReplaceEachInserts(buf, rs, s, j, q);
    MapPosRangeEnd(rs, j, |s|);
  }

  /** A selection with both ends mapped. */
  function MapSel(x: Selection, rs: seq<Range>, len: nat): Selection
    requires Ordered(rs)
  {
    Selection(MapPos(x.anchor, rs, len), MapPos(x.cursor, rs, len))
  }

  function MapList(l: seq<Selection>, rs: seq<Range>, len: nat): (r: seq<Selection>)
    requires Ordered(rs)
    ensures |r| == |l|
  {
    seq(|l|, j requires 0 <= j < |l| => MapSel(l[j], rs, len))
  }

  lemma MapSelEnds(x: Selection, rs: seq<Range>, len: nat)
    requires Ordered(rs)
    ensures MapSel(x, rs, len).Begin() == MapPos(x.Begin(), rs, len)
    ensures MapSel(x, rs, len).End() == MapPos(x.End(), rs, len)
  {
    if x.anchor <= x.cursor {
      MapPosMonotone(x.anchor, x.cursor, rs, len);
    } else {
      MapPosMonotone(x.cursor, x.anchor, rs, len);
    }
  }

  /** Mapped selections stay within the edited buffer. */
  lemma MapListInBounds(l: seq<Selection>, rs: seq<Range>, len: nat, size: nat)
    requires Ordered(rs) && Within(rs, size) && InBounds(l, size)
    ensures size + Off(rs, len) >= 0
    ensures InBounds(MapList(l, rs, len), size + Off(rs, len))
  {
    MapPosEnd(rs, len, size);
    forall j | 0 <= j < |l|
      ensures MapList(l, rs, len)[j].End() <= size + Off(rs, len)
    {
      MapSelEnds(l[j], rs, len);
      MapPosMonotone(l[j].End(), size, rs, len);
    }
  }

  /** Pure insertions keep a sorted list sorted, one for one, with no merge. */
  lemma MapListInsertSorted(l: seq<Selection>, rs: seq<Range>, len: nat)
    requires Ordered(rs) && Sorted(l)
    requires forall i :: 0 <= i < |rs| ==> rs[i].lo == rs[i].hi
    ensures Sorted(MapList(l, rs, len))
  {
    var r := MapList(l, rs, len);
    forall i, j | 0 <= i < j < |l| ensures Apart(r[i], r[j]) {
      assert Apart(l[i], l[j]);
      MapSelEnds(l[i], rs, len);
      MapSelEnds(l[j], rs, len);
      MapPosStrict(l[i].End(), l[j].Begin(), rs, len);
    }
  }

  /** The selection stack: every list, the active one last. */
  type Stack = seq<seq<Selection>>

  /** Every list of the stack after one modification. */
  function RemapStack(st: Stack, m: Modification): (r: Stack)
    ensures |r| == |st|
  {
    seq(|st|, t requires 0 <= t < |st| => RemapList(st[t], m))
  }

  /** Every list of the stack mapped in the original coordinates. */
  function MapStack(st: Stack, rs: seq<Range>, len: nat): (r: Stack)
    requires Ordered(rs)
    ensures |r| == |st|
  {
    seq(|st|, t requires 0 <= t < |st| => MapList(st[t], rs, len))
  }

  /** The stack once the edits are done and every list is merged again. */
  function Edited(st: Stack, rs: seq<Range>, len: nat): (r: Stack)
    requires Ordered(rs)
    ensures |r| == |st|
    ensures forall t :: 0 <= t < |r| ==> Sorted(r[t]) && (|r[t]| > 0 <==> |st[t]| > 0)
  {
    seq(|st|, t requires 0 <= t < |st| => Normalize(MapList(st[t], rs, len)))
  }

  /** The active list of the edited stack is the old active list, edited
      and merged. */
  lemma EditedTop(st: Stack, rs: seq<Range>, len: nat, top: nat)
    requires Ordered(rs) && top == |st| - 1
    ensures Edited(st, rs, len)[top] == Normalize(MapList(st[top], rs, len))
  {
  }

  /** Remapping the whole stack by the next edit keeps it equal to the
      closed form over one more range. */
  lemma MapStackStep(st: Stack, P: seq<Range>, r: Range, len: nat)
    requires Ordered(P + [r])
    ensures Ordered(P)
    ensures RemapStack(MapStack(st, P, len), EditAfter(P, r, len)) == MapStack(st, P + [r], len)
  {
    OrderedPrefix(P + [r], |P|);
    assert (P + [r])[..|P|] == P;
    var m := EditAfter(P, r, len);
    forall t | 0 <= t < |st|
      ensures RemapList(MapList(st[t], P, len), m) == MapList(st[t], P + [r], len)
    {
      forall j | 0 <= j < |st[t]|
        ensures RemapSel(MapSel(st[t][j], P, len), m) == MapSel(st[t][j], P + [r], len)
      {
        Step(P, r, st[t][j].anchor, len);
        Step(P, r, st[t][j].cursor, len);
      }
    }
  }

  /** Replacing range `r` in the buffer where the ranges `P` before it are
      already replaced gives the all-at-once result over `P + [r]`: edits
      applied one after another in document order compound correctly. */
  lemma ReplaceEachStep(buf: seq<char>, P: seq<Range>, r: Range, s: seq<char>)
    requires Ordered(P + [r]) && Within(P + [r], |buf|)
    ensures Ordered(P) && Within(P, |buf|)
    ensures var m := EditAfter(P, r, |s|);
            m.pos + m.removed <= |ReplaceEach(buf, P, s)|
            && ReplaceEach(buf, P + [r], s)
               == ReplaceEach(buf, P, s)[..m.pos] + s + ReplaceEach(buf, P, s)[m.pos + m.removed..]
  {
    var Q := P + [r];
    OrderedPrefix(Q, |P|);
    assert Q[..|P|] == P;
    ReplaceEachLast(buf, Q, s);
    assert Q[|P|] == r;
    ReplaceEachSplit(buf, P, s, r.lo);
    var front := ReplaceEach(buf[..r.lo], P, s);
    var m := EditAfter(P, r, |s|);
    assert m.pos == |front|;
    SpliceOver(ReplaceEach(buf, Q, s), ReplaceEach(buf, P, s), front, s, buf, r.lo, r.hi, m.pos, m.removed);
  }

  /** Splicing `s` over `k` elements at `p`, the end of `front`, in
      `front + buf[lo..]` gives `front + s + buf[hi..]`. */
  lemma SpliceOver<T>(whole: seq<T>, cur: seq<T>, front: seq<T>, s: seq<T>, buf: seq<T>, lo: nat, hi: nat, p: nat, k: nat)
    requires lo <= hi <= |buf| && cur == front + buf[lo..] && whole == front + s + buf[hi..]
    requires p == |front| && k == hi - lo
    ensures p + k <= |cur| && whole == cur[..p] + s + cur[p + k..]
  {
    assert cur[..p] == front;
    assert cur[p + k..] == buf[hi..];
  }

  /** A non-empty stack whose every list keeps the invariant. */
  predicate StackValid(st: Stack, size: nat) {
    |st| > 0 && forall t :: 0 <= t < |st| ==> ValidList(st[t], size)
  }

  /** The stack with its active list replaced by `l`. */
  function SetTop(st: Stack, l: seq<Selection>): (r: Stack)
    requires |st| > 0
    ensures |r| == |st| && r[|r| - 1] == l
    ensures forall t :: 0 <= t < |st| - 1 ==> r[t] == st[t]
  {
    st[..|st| - 1] + [l]
  }

  lemma SetTopValid(st: Stack, l: seq<Selection>, size: nat)
    requires StackValid(st, size) && ValidList(l, size)
    ensures StackValid(SetTop(st, l), size)
  {
  }

  /** Each list keeps the invariant once edited and merged. */
  lemma EditedValid(st: Stack, rs: seq<Range>, len: nat, size: nat)
    requires Ordered(rs) && Within(rs, size)
    requires StackValid(st, size)
    ensures size + Off(rs, len) >= 0
    ensures StackValid(Edited(st, rs, len), size + Off(rs, len))
  {
    MapPosEnd(rs, len, size);
    forall t | 0 <= t < |st| ensures ValidList(Edited(st, rs, len)[t], size + Off(rs, len)) {
      MapListInBounds(st[t], rs, len, size);
      NormalizeInBounds(MapList(st[t], rs, len), size + Off(rs, len));
    }
  }

  /** Everything one more step of a pass of edits needs: replacing the
      k-th range where the ones before it left it extends the all-at-once
      result for the first k ranges to the first k + 1, for the text and
      for every list of the stack. */
  lemma EditStep(buf: seq<char>, st: Stack, rs: seq<Range>, s: seq<char>, k: nat)
    requires Ordered(rs) && Within(rs, |buf|) && k < |rs|
    ensures Ordered(rs[..k]) && Within(rs[..k], |buf|)
    ensures Ordered(rs[..k + 1]) && Within(rs[..k + 1], |buf|)
    ensures Off(rs[..k + 1], |s|) == Off(rs[..k], |s|) + |s| - (rs[k].hi - rs[k].lo)
    ensures var m := EditAfter(rs[..k], rs[k], |s|);
            var cur := ReplaceEach(buf, rs[..k], s);
            && m == Modification(rs[k].lo + Off(rs[..k], |s|), rs[k].hi - rs[k].lo, |s|)
            && m.pos + m.removed <= |cur|
            && ReplaceEach(buf, rs[..k + 1], s) == cur[..m.pos] + s + cur[m.pos + m.removed..]
            && RemapStack(MapStack(st, rs[..k], |s|), m) == MapStack(st, rs[..k + 1], |s|)
  {
    EditStepText(buf, rs, s, k);
    EditStepStack(st, rs, |s|, k);
  }

  /** The text half of `EditStep`. */
  lemma EditStepText(buf: seq<char>, rs: seq<Range>, s: seq<char>, k: nat)
    requires Ordered(rs) && Within(rs, |buf|) && k < |rs|
    ensures Ordered(rs[..k]) && Within(rs[..k], |buf|)
    ensures Ordered(rs[..k + 1]) && Within(rs[..k + 1], |buf|)
    ensures Off(rs[..k + 1], |s|) == Off(rs[..k], |s|) + |s| - (rs[k].hi - rs[k].lo)
    ensures var m := EditAfter(rs[..k], rs[k], |s|);
            var cur := ReplaceEach(buf, rs[..k], s);
            && m == Modification(rs[k].lo + Off(rs[..k], |s|), rs[k].hi - rs[k].lo, |s|)
            && m.pos + m.removed <= |cur|
            && ReplaceEach(buf, rs[..k + 1], s) == cur[..m.pos] + s + cur[m.pos + m.removed..]
  {
    var P := rs[..k];
    assert rs[..k + 1] == P + [rs[k]];
    OrderedPrefix(rs, k + 1);
    ReplaceEachStep(buf, P, rs[k], s);
    assert (P + [rs[k]])[..k] == P;
  }

  /** The stack half of `EditStep`. */
  lemma EditStepStack(st: Stack, rs: seq<Range>, len: nat, k: nat)
    requires Ordered(rs) && k < |rs|
    ensures Ordered(rs[..k]) && Ordered(rs[..k + 1])
    ensures RemapStack(MapStack(st, rs[..k], len), EditAfter(rs[..k], rs[k], len)) == MapStack(st, rs[..k + 1], len)
  {
    var P := rs[..k];
    assert rs[..k + 1] == P + [rs[k]];
    OrderedPrefix(rs, k + 1);
    MapStackStep(st, P, rs[k], len);
  }

  /** Before any edit every list is as it was. */
  lemma MapStackEmpty(st: Stack, len: nat)
    ensures MapStack(st, [], len) == st
  {
    forall t | 0 <= t < |st| ensures MapList(st[t], [], len) == st[t] {
      assert forall p :: MapPos(p, [], len) == p;
    }
  }
}
