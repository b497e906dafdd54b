/** The buffer an editor mutates: its text and its undo history, kept as
    the sequence of committed states and the index of the current one. */
module Buffers {

  datatype History = History(states: seq<seq<char>>, current: nat) {
    predicate Valid() { current < |states| }
  }

  function Text(h: History): seq<char>
    requires h.Valid()
  {
    h.states[h.current]
  }

  /** Records `text` as the next undo step; the states that could have been
      redone from the current one are discarded. */
  function Commit(h: History, text: seq<char>): (r: History)
    requires h.Valid()
    ensures r.Valid() && Text(r) == text
  {
    History(h.states[..h.current + 1] + [text], h.current + 1)
  }

  predicate CanUndo(h: History) { h.current > 0 }

  predicate CanRedo(h: History) { h.current + 1 < |h.states| }

  function StepBack(h: History): (r: History)
    requires h.Valid() && CanUndo(h)
    ensures r.Valid() && r.states == h.states
  {
    History(h.states, h.current - 1)
  }

  function StepForward(h: History): (r: History)
    requires h.Valid() && CanRedo(h)
    ensures r.Valid() && r.states == h.states
  {
    History(h.states, h.current + 1)
  }

  /** The history once the edits made since its current step, if any,
      are recorded as a step of their own. */
  function Settled(h: History, text: seq<char>, pending: bool): (r: History)
    requires h.Valid()
    ensures r.Valid() && Text(r) == (if pending then text else Text(h))
    ensures pending ==> CanUndo(r) && !CanRedo(r)
  {
    if pending then Commit(h, text) else h
  }

  /** Undoing while edits are pending takes back exactly those edits, and
      a redo brings them back. */
  lemma UndoPending(h: History, text: seq<char>)
    requires h.Valid()
    ensures CanUndo(Settled(h, text, true))
    ensures Text(StepBack(Settled(h, text, true))) == Text(h)
    ensures CanRedo(StepBack(Settled(h, text, true)))
    ensures Text(StepForward(StepBack(Settled(h, text, true)))) == text
  {
    var c := Commit(h, text);
    assert c.states[h.current] == h.states[h.current];
  }

  /** Redo takes back an undo. */
  lemma RedoAfterUndo(h: History)
    requires h.Valid() && CanUndo(h)
    ensures CanRedo(StepBack(h)) && StepForward(StepBack(h)) == h
  {
  }

  /** Undo takes back a redo. */
  lemma UndoAfterRedo(h: History)
    requires h.Valid() && CanRedo(h)
    ensures CanUndo(StepForward(h)) && StepBack(StepForward(h)) == h
  {
  }

  /** A new step can be undone back to the text before it, and leaves
      nothing to redo. */
  lemma UndoAfterCommit(h: History, text: seq<char>)
    requires h.Valid()
    ensures CanUndo(Commit(h, text)) && !CanRedo(Commit(h, text))
    ensures Text(StepBack(Commit(h, text))) == Text(h)
  {
  }

  class Buffer {
    var content: seq<char>
    var history: History
    /** Whether the buffer was modified since the last undo step was committed. */
    var pending: bool

    /** The history is well formed, and with nothing pending the text is
        the current state of the history. */
    ghost predicate Valid()
      reads this
    {
      history.Valid() && (!pending ==> content == Text(history))
    }

    constructor(text: seq<char>)
      ensures Valid() && content == text && history == History([text], 0) && !pending
    {
      content := text;
      history := History([text], 0);
      pending := false;
    }

    /** Replaces `removed` characters at `pos` with `text`; a modification
        that removes and inserts nothing leaves the buffer unmodified. */
    method Modify(pos: nat, removed: nat, text: seq<char>)
      requires pos + removed <= |content|
      modifies this`content, this`pending
      ensures content == old(content)[..pos] + text + old(content)[pos + removed..]
      ensures |content| == |old(content)| - removed + |text|
      ensures pending == (old(pending) || removed > 0 || |text| > 0)
    {
      if removed > 0 || |text| > 0 {
        content := content[..pos] + text + content[pos + removed..];
        pending := true;
      } else {
        assert content == content[..pos] + text + content[pos..];
      }
    }

    /** Closes the current undo group: the text becomes one undo step when
        it was modified since the last one. */
    method CommitUndoGroup()
      requires Valid()
      modifies this`history, this`pending
      ensures Valid() && !pending
      ensures history == if old(pending) then Commit(old(history), content) else old(history)
    {
      if pending {
        history := Commit(history, content);
        pending := false;
      }
    }

    /** Steps back one undo step, once the edits made since the last
        step, if any, are recorded as a step of their own. */
    method Undo() returns (done: bool)
      requires Valid()
      modifies this`history, this`content, this`pending
      ensures Valid() && !pending
      ensures var h := Settled(old(history), old(content), old(pending));
              && done == CanUndo(h)
              && (done ==> history == StepBack(h) && content == Text(history))
              && (!done ==> history == h && content == old(content))
    {
      CommitUndoGroup();
      done := history.current > 0;
      if done {
        history := StepBack(history);
        content := Text(history);
      }
    }

    /** Steps forward one undo step, once the edits made since the last
        step, if any, are recorded as a step of their own. */
    method Redo() returns (done: bool)
      requires Valid()
      modifies this`history, this`content, this`pending
      ensures Valid() && !pending
      ensures var h := Settled(old(history), old(content), old(pending));
              && done == CanRedo(h)
              && (done ==> history == StepForward(h) && content == Text(history))
              && (!done ==> history == h && content == old(content))
    {
      CommitUndoGroup();
      done := history.current + 1 < |history.states|;
      if done {
        history := StepForward(history);
        content := Text(history);
      }
    }
  }
}
