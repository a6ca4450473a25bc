/** Text as the program's strings hold it: a sequence of UTF-16 code units. */
module Texts {

  type Unit = u: int | 0 <= u < 0x1_0000

  type Text = seq<Unit>

  /** The white space that `trim` removes (ECMAScript section 22.1.3.32). */
  predicate IsSpace(u: Unit) {
    9 <= u <= 13 || u == 32 || u == 160 || u == 0x1680 || 0x2000 <= u <= 0x200a
    || u == 0x2028 || u == 0x2029 || u == 0x202f || u == 0x205f || u == 0x3000 || u == 0xfeff
  }

  /** Nothing would be left after `trim`. */
  predicate Blank(t: Text) { forall i :: 0 <= i < |t| ==> IsSpace(t[i]) }

  /** ASCII lower case; other letters stay as they are. */
  function LowerUnit(u: Unit): Unit { if 65 <= u <= 90 then u + 32 else u }

  function Lower(t: Text): (r: Text)
    ensures |r| == |t| && forall i :: 0 <= i < |t| ==> r[i] == LowerUnit(t[i])
  {
    seq(|t|, i requires 0 <= i < |t| => LowerUnit(t[i]))
  }

  /** A word of the program, spelled out; it has only ASCII characters. */
  function Word(s: string): (r: Text)
    requires forall i :: 0 <= i < |s| ==> s[i] < 128 as char
    ensures |r| == |s| && forall i :: 0 <= i < |s| ==> r[i] == s[i] as int
  {
    seq(|s|, i requires 0 <= i < |s| => s[i] as int)
  }
}
