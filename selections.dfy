/** Selections and selection lists, with buffer positions as offsets.
    A selection covers the half-open span [Begin(), End()); when anchor and
    cursor coincide it is an insertion point. */
module Selections {

  datatype Selection = Selection(anchor: nat, cursor: nat) {
    function Begin(): nat { if anchor <= cursor then anchor else cursor }
    function End(): nat { if anchor <= cursor then cursor else anchor }
    predicate IsPoint() { anchor == cursor }
  }

  function Point(p: nat): (r: Selection)
    ensures r.IsPoint() && r.Begin() == p && r.End() == p
  {
    Selection(p, p)
  }

  function Min(a: nat, b: nat): nat { if a <= b then a else b }
  function Max(a: nat, b: nat): nat { if a <= b then b else a }

  /** `a` ends strictly before `b` begins: the order every selection list
      keeps between its members. Selections that overlap or touch are not
      apart, and are merged. */
  predicate Apart(a: Selection, b: Selection) {
    a.End() < b.Begin()
  }

  /** `outer` spans everything `inner` spans. */
  predicate Covers(outer: Selection, inner: Selection) {
    outer.Begin() <= inner.Begin() && inner.End() <= outer.End()
  }

  /** Sorted by start, with no two selections overlapping or touching. */
  predicate Sorted(l: seq<Selection>) {
    forall i, j :: 0 <= i < j < |l| ==> Apart(l[i], l[j])
  }

  predicate InBounds(l: seq<Selection>, size: nat) {
    forall i :: 0 <= i < |l| ==> l[i].End() <= size
  }

  /** The invariant every selection list of an editor keeps. */
  predicate ValidList(l: seq<Selection>, size: nat) {
    |l| > 0 && Sorted(l) && InBounds(l, size)
  }

  /** The smallest forward selection spanning both. */
  function Merge(a: Selection, b: Selection): (m: Selection)
    ensures Covers(m, a) && Covers(m, b)
    ensures m.Begin() == Min(a.Begin(), b.Begin()) && m.End() == Max(a.End(), b.End())
  {
    Selection(Min(a.Begin(), b.Begin()), Max(a.End(), b.End()))
  }

  /** Adds `x` to a sorted list, merging it with every member it is not apart from. */
  function InsertSel(x: Selection, l: seq<Selection>): (r: seq<Selection>)
    requires Sorted(l)
    ensures |r| > 0 && Sorted(r)
    ensures r[0].Begin() >= (if |l| == 0 then x.Begin() else Min(x.Begin(), l[0].Begin()))
    decreases |l|
  {
    if |l| == 0 then [x]
    else if Apart(x, l[0]) then [x] + l
    else if Apart(l[0], x) then
      var rest := InsertSel(x, l[1..]);
      assert Apart(l[0], rest[0]);
      assert forall j :: 0 < j < |rest| ==> Apart(rest[0], rest[j]);
      [l[0]] + rest
    else InsertSel(Merge(x, l[0]), l[1..])
  }

  /** Sorts and merges an arbitrary list of selections into one that keeps the invariant. */
  function Normalize(l: seq<Selection>): (r: seq<Selection>)
    ensures Sorted(r)
    ensures |r| > 0 <==> |l| > 0
  {
    if |l| == 0 then [] else InsertSel(l[0], Normalize(l[1..]))
  }

  lemma {:induction false} InsertSelInBounds(x: Selection, l: seq<Selection>, size: nat)
    requires Sorted(l) && InBounds(l, size) && x.End() <= size
    ensures InBounds(InsertSel(x, l), size)
    decreases |l|
  {
    if |l| == 0 || Apart(x, l[0]) {
    } else if Apart(l[0], x) {
      InsertSelInBounds(x, l[1..], size);
    } else {
      InsertSelInBounds(Merge(x, l[0]), l[1..], size);
    }
  }

  /** Normalizing keeps every selection within the buffer. */
  lemma {:induction false} NormalizeInBounds(l: seq<Selection>, size: nat)
    requires InBounds(l, size)
    ensures InBounds(Normalize(l), size)
  {
    if |l| > 0 {
      NormalizeInBounds(l[1..], size);
      InsertSelInBounds(l[0], Normalize(l[1..]), size);
    }
  }

  /** Some member of `r` spans `x`. */
  predicate Spanned(r: seq<Selection>, x: Selection) {
    exists i :: 0 <= i < |r| && Covers(r[i], x)
  }

  lemma SpannedAt(r: seq<Selection>, i: nat, x: Selection)
    requires i < |r| && Covers(r[i], x)
    ensures Spanned(r, x)
  {
  }

  lemma SpannedTrans(r: seq<Selection>, y: Selection, x: Selection)
    requires Spanned(r, y) && Covers(y, x)
    ensures Spanned(r, x)
  {
    var i :| 0 <= i < |r| && Covers(r[i], y);
    SpannedAt(r, i, x);
  }

  lemma SpannedCons(a: Selection, r: seq<Selection>, x: Selection)
    requires Spanned(r, x)
    ensures Spanned([a] + r, x)
  {
    var i :| 0 <= i < |r| && Covers(r[i], x);
    SpannedAt([a] + r, i + 1, x);
  }

  lemma {:induction false} InsertSelCovers(x: Selection, l: seq<Selection>)
    requires Sorted(l)
    ensures Spanned(InsertSel(x, l), x)
    ensures forall j :: 0 <= j < |l| ==> Spanned(InsertSel(x, l), l[j])
    decreases |l|
  {
    var r := InsertSel(x, l);
    if |l| == 0 {
      SpannedAt(r, 0, x);
    } else if Apart(x, l[0]) {
      SpannedAt(r, 0, x);
      forall j | 0 <= j < |l| ensures Spanned(r, l[j]) {
        SpannedAt(r, j + 1, l[j]);
      }
    } else if Apart(l[0], x) {
      var rest := InsertSel(x, l[1..]);
      InsertSelCovers(x, l[1..]);
      assert r == [l[0]] + rest;
      SpannedCons(l[0], rest, x);
      forall j | 0 <= j < |l| ensures Spanned(r, l[j]) {
        if j == 0 {
          SpannedAt(r, 0, l[0]);
        } else {
          assert l[1..][j - 1] == l[j];
          SpannedCons(l[0], rest, l[j]);
        }
      }
    } else {
      var m := Merge(x, l[0]);
      InsertSelCovers(m, l[1..]);
      SpannedTrans(r, m, x);
      forall j | 0 <= j < |l| ensures Spanned(r, l[j]) {
        if j == 0 {
          SpannedTrans(r, m, l[0]);
        } else {
          assert l[1..][j - 1] == l[j];
        }
      }
    }
  }

  /** Every selection handed to Normalize is spanned by one it returns. */
  lemma {:induction false} NormalizeCovers(l: seq<Selection>)
    ensures forall j :: 0 <= j < |l| ==> Spanned(Normalize(l), l[j])
  {
    if |l| > 0 {
      var rest := Normalize(l[1..]);
      var r := Normalize(l);
      NormalizeCovers(l[1..]);
      InsertSelCovers(l[0], rest);
      forall j | 0 <= j < |l| ensures Spanned(r, l[j]) {
        if j > 0 {
          assert l[1..][j - 1] == l[j];
          var k :| 0 <= k < |rest| && Covers(rest[k], l[j]);
          SpannedTrans(r, rest[k], l[j]);
        }
      }
    }
  }

  /** A list that already keeps the invariant is left exactly as it is. */
  lemma {:induction false} NormalizeSorted(l: seq<Selection>)
    requires Sorted(l)
    ensures Normalize(l) == l
  {
    if |l| > 0 {
      NormalizeSorted(l[1..]);
      if |l| > 1 {
        assert Apart(l[0], l[1]);
      }
      assert [l[0]] + l[1..] == l;
    }
  }

  /** Some member of `l` covers position `p`. */
  predicate Inside(l: seq<Selection>, p: nat) {
    exists z :: z in l && z.Begin() <= p < z.End()
  }

  /** `y` is made of members of `l`: it starts where one of them starts,
      ends where one of them ends, and covers no position none of them covers. */
  predicate Made(l: seq<Selection>, y: Selection) {
    && (exists z :: z in l && z.Begin() == y.Begin())
    && (exists z :: z in l && z.End() == y.End())
    && (forall p: nat :: y.Begin() <= p < y.End() ==> Inside(l, p))
  }

  /** Every member of `r` is made of members of `l`. */
  predicate AllMade(r: seq<Selection>, l: seq<Selection>) {
    forall z :: z in r ==> Made(l, z)
  }

  lemma MadeSelf(l: seq<Selection>, y: Selection)
    requires y in l
    ensures Made(l, y)
  {
    forall p: nat | y.Begin() <= p < y.End() ensures Inside(l, p) {
    }
  }

  /** Members of `b` are made of `b`. */
  lemma AllMadeSub(a: seq<Selection>, b: seq<Selection>)
    requires forall z :: z in a ==> z in b
    ensures AllMade(a, b)
  {
    forall z | z in a ensures Made(b, z) {
      MadeSelf(b, z);
    }
  }

  lemma AllMadeCat(a: seq<Selection>, c: seq<Selection>, b: seq<Selection>)
    requires AllMade(a, b) && AllMade(c, b)
    ensures AllMade(a + c, b)
  {
    forall z | z in a + c ensures Made(b, z) {
      if z in a {
        assert Made(b, z);
      } else {
        assert z in c;
      }
    }
  }

  /** Made of a list whose every member is made of `b` is made of `b`. */
  lemma MadeTrans(a: seq<Selection>, b: seq<Selection>, y: Selection)
    requires Made(a, y) && AllMade(a, b)
    ensures Made(b, y)
  {
    var z1 :| z1 in a && z1.Begin() == y.Begin();
    assert Made(b, z1);
    var z2 :| z2 in a && z2.End() == y.End();
    assert Made(b, z2);
    forall p: nat | y.Begin() <= p < y.End() ensures Inside(b, p) {
      assert Inside(a, p);
      var z :| z in a && z.Begin() <= p < z.End();
      assert Made(b, z);
    }
  }

  lemma AllMadeTrans(r: seq<Selection>, a: seq<Selection>, b: seq<Selection>)
    requires AllMade(r, a) && AllMade(a, b)
    ensures AllMade(r, b)
  {
    forall z | z in r ensures Made(b, z) {
      MadeTrans(a, b, z);
    }
  }

  /** Two selections that are not apart either way cover, together, every
      position their merge covers. */
  lemma MergeMade(x: Selection, y: Selection)
    requires !Apart(x, y) && !Apart(y, x)
    ensures Made([x, y], Merge(x, y))
  {
    var m := Merge(x, y);
    forall p: nat | m.Begin() <= p < m.End() ensures Inside([x, y], p) {
      if x.Begin() <= p < x.End() {
        assert x in [x, y];
      } else {
        assert y in [x, y];
      }
    }
    if m.Begin() == x.Begin() { assert x in [x, y]; } else { assert y in [x, y]; }
    if m.End() == x.End() { assert x in [x, y]; } else { assert y in [x, y]; }
  }

  /** Adding a selection to a sorted list makes nothing that is not made
      of the selection and the list. */
  lemma {:induction false} InsertSelMade(x: Selection, l: seq<Selection>)
    requires Sorted(l)
    ensures AllMade(InsertSel(x, l), [x] + l)
    decreases |l|
  {
    var xl := [x] + l;
    if |l| == 0 || Apart(x, l[0]) {
      AllMadeSub(InsertSel(x, l), xl);
    } else if Apart(l[0], x) {
      var rest := InsertSel(x, l[1..]);
      InsertSelMade(x, l[1..]);
      AllMadeSub([x] + l[1..], xl);
      AllMadeTrans(rest, [x] + l[1..], xl);
      AllMadeSub([l[0]], xl);
      AllMadeCat([l[0]], rest, xl);
    } else {
      var m := Merge(x, l[0]);
      InsertSelMade(m, l[1..]);
      MergeMade(x, l[0]);
      AllMadeSub([x, l[0]], xl);
      MadeTrans([x, l[0]], xl, m);
      assert AllMade([m], xl);
      AllMadeSub(l[1..], xl);
      AllMadeCat([m], l[1..], xl);
      AllMadeTrans(InsertSel(x, l), [m] + l[1..], xl);
    }
  }

  /** Every selection Normalize returns is made of the ones handed to it:
      the merge adds no position the input does not cover, and each bound
      is the bound of an input selection. */
  lemma {:induction false} NormalizeMade(l: seq<Selection>)
    ensures AllMade(Normalize(l), l)
  {
    if |l| > 0 {
      var rest := Normalize(l[1..]);
      NormalizeMade(l[1..]);
      InsertSelMade(l[0], rest);
      AllMadeSub(l[1..], l);
      AllMadeTrans(rest, l[1..], l);
      AllMadeSub([l[0]], l);
      AllMadeCat([l[0]], rest, l);
      AllMadeTrans(Normalize(l), [l[0]] + rest, l);
    }
  }
}
