/** Characters and strings of the text tools: 7-bit, and without NUL, which ends a string. */
module Ascii {
  /** An ASCII character other than NUL. */
  type Ch = x: int | 1 <= x < 128 witness 1

  /** The character at i, NUL at the end and past it. */
  function CharAt(s: seq<Ch>, i: nat): (c: int)
    ensures 0 <= c < 128 && (c == 0 <==> i >= |s|)
  {
    if i < |s| then s[i] else 0
  }

  /** tolower */
  function Lower(c: Ch): Ch {
    if 'A' as int <= c <= 'Z' as int then c + 32 else c
  }

  function Fold(s: seq<Ch>): (t: seq<Ch>)
    ensures |t| == |s| && forall i :: 0 <= i < |s| ==> t[i] == Lower(s[i])
  {
    seq(|s|, i requires 0 <= i < |s| => Lower(s[i]))
  }
}
