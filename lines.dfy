/** Line structure of the buffer text: lines end at '\n'. */
module Lines {

  /** Start of the line holding position `p`: just past the last newline before it. */
  function LineStart(buf: seq<char>, p: nat): (r: nat)
    requires p <= |buf|
    ensures r <= p
    ensures r == 0 || buf[r - 1] == '\n'
    ensures forall i :: r <= i < p ==> buf[i] != '\n'
  {
    if p == 0 || buf[p - 1] == '\n' then p else LineStart(buf, p - 1)
  }

  /** End of the line holding position `p`: its newline, or the buffer's end. */
  function LineEnd(buf: seq<char>, p: nat): (r: nat)
    requires p <= |buf|
    ensures p <= r <= |buf|
    ensures r == |buf| || buf[r] == '\n'
    ensures forall i :: p <= i < r ==> buf[i] != '\n'
    decreases |buf| - p
  {
    if p == |buf| || buf[p] == '\n' then p else LineEnd(buf, p + 1)
  }

  /** `p` is the first column of a line. */
  predicate AtLineStart(buf: seq<char>, p: nat) {
    p <= |buf| && (p == 0 || buf[p - 1] == '\n')
  }

  /** `p` is the end of a line: its newline or the buffer's end. */
  predicate AtLineEnd(buf: seq<char>, p: nat) {
    p <= |buf| && (p == |buf| || buf[p] == '\n')
  }

  /** `p` is on a line with nothing on it. */
  predicate EmptyLineAt(buf: seq<char>, p: nat) {
    AtLineStart(buf, p) && AtLineEnd(buf, p)
  }

  predicate IsBlank(c: char) {
    c == ' ' || c == '\t'
  }

  /** The first position at or after `p` that is not a blank, or the end of
      the line when only blanks remain. */
  function SkipBlanks(buf: seq<char>, p: nat): (r: nat)
    requires p <= |buf|
    ensures p <= r <= LineEnd(buf, p)
    ensures forall i :: p <= i < r ==> IsBlank(buf[i])
    ensures r < LineEnd(buf, p) ==> !IsBlank(buf[r])
    decreases |buf| - p
  {
    if p == |buf| || buf[p] == '\n' || !IsBlank(buf[p]) then p else SkipBlanks(buf, p + 1)
  }

  /** The first non-blank column of the line holding `p`, or the line's
      first column when the line is blank. */
  function FirstNonBlank(buf: seq<char>, p: nat): (r: nat)
    requires p <= |buf|
    ensures LineStart(buf, p) <= r <= LineEnd(buf, p)
    ensures forall i :: LineStart(buf, p) <= i < r ==> IsBlank(buf[i])
    ensures r < LineEnd(buf, p) && IsBlank(buf[r]) ==>
              r == LineStart(buf, p) && forall i :: r <= i < LineEnd(buf, p) ==> IsBlank(buf[i])
    ensures (forall i :: LineStart(buf, p) <= i < LineEnd(buf, p) ==> IsBlank(buf[i])) ==> r == LineStart(buf, p)
  {
    var s := LineStart(buf, p);
    SameLine(buf, s, p);
    var q := SkipBlanks(buf, s);
    if q == LineEnd(buf, s) then s else q
  }

  /** Every position from a line's start up to `p` is on the same line. */
  lemma {:induction false} SameLine(buf: seq<char>, s: nat, p: nat)
    requires s <= p <= |buf|
    requires forall i :: s <= i < p ==> buf[i] != '\n'
    ensures LineEnd(buf, s) == LineEnd(buf, p)
    decreases p - s
  {
    if s < p {
      SameLine(buf, s + 1, p);
    }
  }
}
