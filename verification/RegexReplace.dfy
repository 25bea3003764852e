/** Replacements, and what they stand for after a search. */
module RegexReplace {
  import opened Ascii
  import opened RegexSyntax

  /** An item of a replacement: a group to insert, or an ordinary character when no is -1. */
  datatype Item = Item(no: int, ch: Ch, next: nat)

  function NextItem(src: seq<Ch>, p: nat): (item: Item)
    requires p < |src|
    ensures p < item.next <= |src| && -1 <= item.no < NSUBEXP
  {
    var c, d := src[p], CharAt(src, p + 1);
    if c == '&' as int then Item(0, c, p + 1)
    else if c == BACKSLASH && '0' as int <= d <= '9' as int then Item(d - '0' as int, c, p + 2)
    else if c == BACKSLASH && (d == BACKSLASH || d == '&' as int) then Item(-1, d, p + 2)
    else Item(-1, c, p + 1)
  }

  /** The text of a group; nothing for a group that is unset or empty. */
  function Caption(no: nat, text: seq<Ch>, sp: seq<int>, ep: seq<int>): (cs: seq<Ch>)
    requires no < NSUBEXP == |sp| == |ep|
  {
    if 0 <= sp[no] < ep[no] <= |text| then text[sp[no]..ep[no]] else []
  }

  /** A replacement from p on: & stands for the whole match and a backslash and a digit for a
      group; a backslash makes another backslash, or an &, ordinary. */
  function Expansion(src: seq<Ch>, p: nat, text: seq<Ch>, sp: seq<int>, ep: seq<int>): (cs: seq<Ch>)
    requires p <= |src| && NSUBEXP == |sp| == |ep|
    decreases |src| - p
  {
    if p == |src| then []
    else
      var item := NextItem(src, p);
      (if item.no >= 0 then Caption(item.no, text, sp, ep) else [item.ch]) + Expansion(src, item.next, text, sp, ep)
  }

  lemma ExpansionStep(src: seq<Ch>, p: nat, text: seq<Ch>, sp: seq<int>, ep: seq<int>)
    requires p <= |src| && NSUBEXP == |sp| == |ep|
    ensures Expansion(src, p, text, sp, ep) ==
            if p == |src| then []
            else (if NextItem(src, p).no >= 0 then Caption(NextItem(src, p).no, text, sp, ep) else [NextItem(src, p).ch])
                 + Expansion(src, NextItem(src, p).next, text, sp, ep)
  {
  }

  // ----------------------------------------------------- item after item

  /** What a replacement is made of: the whole match, a group, a backslash, an ampersand, or any
      other character. */
  datatype Part = Found | Numbered(d: nat) | Backslash | Ampersand | Other(c: Ch)

  /** How it is written. */
  function Written(x: Part): (cs: seq<Ch>)
    ensures cs != []
  {
    match x
    case Found => ['&' as int]
    case Numbered(d) => ['\\' as int, if d < 10 then '0' as int + d else '0' as int]
    case Backslash => ['\\' as int, '\\' as int]
    case Ampersand => ['\\' as int, '&' as int]
    case Other(c) => [c]
  }

  /** What it stands for: the parts of the text that the match and its groups caught, nothing for
      a group that is unset or empty, and characters as they are. */
  function Meaning(x: Part, text: seq<Ch>, sp: seq<int>, ep: seq<int>): seq<Ch>
    requires 10 == |sp| == |ep|
  {
    match x
    case Found => if 0 <= sp[0] <= ep[0] <= |text| then text[sp[0]..ep[0]] else []
    case Numbered(d) => if d < 10 && 0 <= sp[d] <= ep[d] <= |text| then text[sp[d]..ep[d]] else []
    case Backslash => ['\\' as int]
    case Ampersand => ['&' as int]
    case Other(c) => [c]
  }

  function AllWritten(xs: seq<Part>): seq<Ch> {
    if xs == [] then [] else Written(xs[0]) + AllWritten(xs[1..])
  }

  function AllMeaning(xs: seq<Part>, text: seq<Ch>, sp: seq<int>, ep: seq<int>): seq<Ch>
    requires 10 == |sp| == |ep|
  {
    if xs == [] then [] else Meaning(xs[0], text, sp, ep) + AllMeaning(xs[1..], text, sp, ep)
  }

  /** Groups have one digit; an ampersand by itself is the whole match, and a backslash is by
      itself only if no digit, backslash or ampersand comes next. */
  predicate Readable(xs: seq<Part>) {
    xs != [] ==>
      && Readable(xs[1..])
      && (xs[0].Numbered? ==> xs[0].d < 10)
      && (xs[0].Other? ==> xs[0].c != '&' as int)
      && (xs[0] == Other('\\' as int) && xs[1..] != [] ==>
            var next := Written(xs[1])[0];
            !('0' as int <= next <= '9' as int) && next != '\\' as int && next != '&' as int)
  }

  /** The item that is read first is the first one that was written. */
  lemma FirstItem(src: seq<Ch>, p: nat, xs: seq<Part>)
    requires p < |src| && xs != [] && Readable(xs) && src[p..] == AllWritten(xs)
    ensures var item := NextItem(src, p);
            && item.next == p + |Written(xs[0])| && src[item.next..] == AllWritten(xs[1..])
            && match xs[0]
               case Found => item.no == 0
               case Numbered(d) => item.no == d
               case Backslash => item.no == -1 && item.ch == '\\' as int
               case Ampersand => item.no == -1 && item.ch == '&' as int
               case Other(c) => item.no == -1 && item.ch == c
  {
    var w, more := Written(xs[0]), AllWritten(xs[1..]);
    assert src[p..] == w + more;
    assert src[p + |w|..] == src[p..][|w|..] == more;
    assert src[p] == src[p..][0];
    if p + 1 < |src| { assert src[p + 1] == src[p..][1]; }
    if xs[0] == Other('\\' as int) && xs[1..] != [] { assert more[0] == Written(xs[1])[0]; }
  }

  /** Whatever items a replacement is written of, it expands to what they stand for, one after the
      other. */
  lemma {:induction false} ExpansionMeans(src: seq<Ch>, p: nat, xs: seq<Part>, text: seq<Ch>, sp: seq<int>, ep: seq<int>)
    requires NSUBEXP == |sp| == |ep| && p <= |src| && Readable(xs) && src[p..] == AllWritten(xs)
    ensures Expansion(src, p, text, sp, ep) == AllMeaning(xs, text, sp, ep)
    decreases |xs|
  {
    hide NextItem, Expansion, Readable;
    ExpansionStep(src, p, text, sp, ep);
    if xs != [] {
      ReadableRest(xs);
      FirstItem(src, p, xs);
      ExpansionMeans(src, NextItem(src, p).next, xs[1..], text, sp, ep);
    }
  }

  lemma ReadableRest(xs: seq<Part>)
    requires xs != [] && Readable(xs)
    ensures Readable(xs[1..]) && (xs[0].Numbered? ==> xs[0].d < 10)
  {
  }

  /** Every replacement is written of items. */
  lemma {:induction false} EveryReplacement(src: seq<Ch>) returns (xs: seq<Part>)
    ensures Readable(xs) && AllWritten(xs) == src
    decreases |src|
  {
    xs := [];
    if src != [] {
      var c, d := src[0], CharAt(src, 1);
      var x := if c == '&' as int then Found
               else if c != '\\' as int then Other(c)
               else if '0' as int <= d <= '9' as int then Numbered(d - '0' as int)
               else if d == '\\' as int then Backslash
               else if d == '&' as int then Ampersand
               else Other(c);
      var n := |Written(x)|;
      var more := EveryReplacement(src[n..]);
      xs := [x] + more;
      assert xs[1..] == more && src == src[..n] + src[n..] && Written(x) == src[..n];
      if more != [] { assert src[n..][0] == Written(more[0])[0]; }
    }
  }
}
