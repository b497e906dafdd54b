/** The editor's filter registry: transforms applied to every edit, each
    registered under a unique id, kept in registration order. */
module Filters {

  /** A registered filter. The transform itself runs code outside the
      editor and is represented by an opaque token. */
  datatype Filter = Filter(id: string, func: nat)

  predicate UniqueIds(fs: seq<Filter>) {
    forall i, j :: 0 <= i < j < |fs| ==> fs[i].id != fs[j].id
  }

  predicate HasId(fs: seq<Filter>, id: string) {
    exists i :: 0 <= i < |fs| && fs[i].id == id
  }

  /** The registry without the filter named `id`; everything else in order. */
  function Without(fs: seq<Filter>, id: string): (r: seq<Filter>)
    ensures |r| <= |fs|
    ensures !HasId(r, id)
  {
    if |fs| == 0 then []
    else if fs[|fs| - 1].id == id then Without(fs[..|fs| - 1], id)
    else Without(fs[..|fs| - 1], id) + [fs[|fs| - 1]]
  }

  predicate IsPrefix(p: string, s: string) {
    |p| <= |s| && s[..|p|] == p
  }

  /** The ids starting with `prefix`, in registration order. */
  function Completions(fs: seq<Filter>, prefix: string): (r: seq<string>)
    ensures |r| <= |fs|
    ensures forall k :: 0 <= k < |r| ==> IsPrefix(prefix, r[k])
  {
    if |fs| == 0 then []
    else if IsPrefix(prefix, fs[|fs| - 1].id) then Completions(fs[..|fs| - 1], prefix) + [fs[|fs| - 1].id]
    else Completions(fs[..|fs| - 1], prefix)
  }

  /** An id is offered exactly when some registered filter has it and it
      starts with the prefix. */
  lemma {:induction false} CompletionsExact(fs: seq<Filter>, prefix: string, x: string)
    ensures x in Completions(fs, prefix) <==> HasId(fs, x) && IsPrefix(prefix, x)
  {
    if |fs| > 0 {
      var init := fs[..|fs| - 1];
      CompletionsExact(init, prefix, x);
      if HasId(fs, x) && IsPrefix(prefix, x) {
        var i :| 0 <= i < |fs| && fs[i].id == x;
        if i < |fs| - 1 {
          assert init[i].id == x;
        }
      }
      if HasId(init, x) {
        var i :| 0 <= i < |init| && init[i].id == x;
        assert fs[i].id == x;
      }
    }
  }

  /** Ids of a registry with one more filter at its end. */
  lemma HasIdSnoc(w: seq<Filter>, last: Filter, x: string)
    ensures HasId(w + [last], x) <==> HasId(w, x) || last.id == x
  {
    if HasId(w, x) {
      var i :| 0 <= i < |w| && w[i].id == x;
      assert (w + [last])[i].id == x;
    }
    if last.id == x {
      assert (w + [last])[|w|].id == x;
    }
    if HasId(w + [last], x) && last.id != x {
      var i :| 0 <= i < |w| + 1 && (w + [last])[i].id == x;
      assert w[i].id == x;
    }
  }

  /** A filter whose id is new keeps the ids unique. */
  lemma UniqueSnoc(w: seq<Filter>, last: Filter)
    requires UniqueIds(w) && !HasId(w, last.id)
    ensures UniqueIds(w + [last])
  {
    forall i, j | 0 <= i < j < |w| + 1 ensures (w + [last])[i].id != (w + [last])[j].id {
      if j == |w| {
        assert w[i].id != last.id;
      }
    }
  }

  /** Removing a filter keeps exactly the others, in order, ids unique. */
  lemma {:induction false} WithoutKeepsOthers(fs: seq<Filter>, id: string)
    requires UniqueIds(fs)
    ensures UniqueIds(Without(fs, id))
    ensures forall x :: x != id ==> (HasId(Without(fs, id), x) <==> HasId(fs, x))
    ensures HasId(fs, id) ==> |Without(fs, id)| == |fs| - 1
    ensures !HasId(fs, id) ==> Without(fs, id) == fs
  {
    if |fs| > 0 {
      var init := fs[..|fs| - 1];
      var last := fs[|fs| - 1];
      assert init + [last] == fs;
      WithoutKeepsOthers(init, id);
      var w := Without(init, id);
      forall x ensures HasId(fs, x) <==> HasId(init, x) || last.id == x {
        HasIdSnoc(init, last, x);
      }
      if last.id != id {
        assert !HasId(init, last.id);
        forall x ensures HasId(w + [last], x) <==> HasId(w, x) || last.id == x {
          HasIdSnoc(w, last, x);
        }
        UniqueSnoc(w, last);
      }
    }
  }

  /** Removing the filter at index `i` removes exactly that entry. */
  lemma {:induction false} WithoutAt(fs: seq<Filter>, id: string, i: nat)
    requires UniqueIds(fs) && i < |fs| && fs[i].id == id
    ensures Without(fs, id) == fs[..i] + fs[i + 1..]
  {
    var init := fs[..|fs| - 1];
    var last := fs[|fs| - 1];
    assert UniqueIds(init);
    if i == |fs| - 1 {
      forall k | 0 <= k < |init| ensures init[k].id != id {
        assert init[k] == fs[k];
      }
      WithoutKeepsOthers(init, id);
    } else {
      assert init[i].id == id;
      WithoutAt(init, id, i);
      assert last.id != id;
      assert init[..i] == fs[..i];
      assert init[i + 1..] + [last] == fs[i + 1..];
    }
  }
}
