/** Strings of section 7 of RFC 8259: which texts may stand between two quotes, what they mean,
    and what the parser makes of them. */
module JsonStrings {
  import opened Bytes
  import opened Json
  import opened JsonParser
  import opened JsonTexts

  /** The escape sequence that t begins with: its length, 0 if it begins with none. */
  function EscapeLength(t: Str): (n: nat)
    ensures n <= |t|
  {
    if |t| < 2 || t[0] != BACKSLASH then 0
    else if t[1] == 'u' as int then if HexFour(t, 2) >= 0 then 6 else 0
    else if Unescape(t[1]) >= 0 then 2 else 0
  }

  /** The length of the first character of t as it is written, 0 if it may not stand there. */
  function CharLength(t: Str): (n: nat)
    ensures n <= |t|
  {
    if t == [] || t[0] < 0x20 || t[0] == QUOTE then 0
    else if t[0] == BACKSLASH then EscapeLength(t) else 1
  }

  /** The grammar: unescaped bytes from 0x20 on but the quote and the backslash, a backslash with
      one of eight characters, and a backslash with u and four hexadecimal digits. */
  predicate Legal(t: Str) {
    t == [] || (CharLength(t) > 0 && Legal(t[CharLength(t)..]))
  }

  /** What the first character of t is by itself. */
  function CharValue(t: Str): Str
    requires CharLength(t) > 0
  {
    if CharLength(t) == 1 then [t[0]] else if CharLength(t) == 2 then [Unescape(t[1])] else Utf8(HexFour(t, 2))
  }

  /** Every character by itself. */
  function Plain(t: Str): Str
    requires Legal(t)
  {
    if t == [] then [] else CharValue(t) + Plain(t[CharLength(t)..])
  }

  /** t begins with two escapes that are a surrogate pair. */
  predicate PairAt(t: Str) {
    && CharLength(t) == 6 && 0xD800 <= HexFour(t, 2) < 0xDC00
    && CharLength(t[6..]) == 6 && 0xDC00 <= HexFour(t[6..], 2) < 0xE000
  }

  /** The character beyond the basic plane that a pair stands for, in UTF-8. */
  function PairValue(t: Str): (cs: Str)
    requires PairAt(t)
    ensures |cs| == 4
  {
    var v := 0x1_0000 + (HexFour(t, 2) - 0xD800) * 0x400 + HexFour(t[6..], 2) - 0xDC00;
    [0xF0 + v / 0x4_0000, 0x80 + v / 0x1000 % 64, 0x80 + v / 64 % 64, 0x80 + v % 64]
  }

  /** What t means: a surrogate pair is one character. */
  function Meaning(t: Str): Str
    requires Legal(t)
    decreases |t|
  {
    if t == [] then []
    else if PairAt(t) then
      PairLegal(t);
      PairValue(t) + Meaning(t[12..])
    else CharValue(t) + Meaning(t[CharLength(t)..])
  }

  /** How many surrogate pairs are in t. */
  function Pairs(t: Str): (n: nat)
    requires Legal(t)
    decreases |t|
  {
    if t == [] then 0
    else if PairAt(t) then
      PairLegal(t);
      1 + Pairs(t[12..])
    else Pairs(t[CharLength(t)..])
  }

  lemma PairLegal(t: Str)
    requires Legal(t) && PairAt(t)
    ensures |t| >= 12 && Legal(t[6..]) && Legal(t[12..])
  {
    assert Legal(t[6..][6..]) && t[6..][6..] == t[12..];
  }

  /** Each surrogate pair makes what is read two bytes longer than what is meant. */
  lemma {:induction false} PlainLength(t: Str)
    requires Legal(t)
    ensures |Plain(t)| == |Meaning(t)| + 2 * Pairs(t)
    decreases |t|
  {
    if t != [] {
      if PairAt(t) {
        PairLegal(t);
        PlainLength(t[12..]);
        PlainPair(t);
      } else {
        PlainLength(t[CharLength(t)..]);
      }
    }
  }

  lemma PlainPair(t: Str)
    requires Legal(t) && PairAt(t)
    ensures |t| >= 12 && Legal(t[12..]) && |Plain(t)| == 6 + |Plain(t[12..])|
  {
    PairLegal(t);
    assert t[6..][6..] == t[12..];
    assert Plain(t) == Utf8(HexFour(t, 2)) + Plain(t[6..]);
    assert Plain(t[6..]) == Utf8(HexFour(t[6..], 2)) + Plain(t[12..]);
  }

  /** A string is read as it is meant exactly if there is no surrogate pair in it. */
  lemma {:induction false} PlainMeans(t: Str)
    requires Legal(t)
    ensures Plain(t) == Meaning(t) <==> Pairs(t) == 0
    decreases |t|
  {
    PlainLength(t);
    if t != [] && !PairAt(t) { PlainMeans(t[CharLength(t)..]); }
  }

  const HIGH: Str := [BACKSLASH, 'u' as int, 'D' as int, '8' as int, '3' as int, '4' as int]
  const LOW: Str := [BACKSLASH, 'u' as int, 'D' as int, 'D' as int, '1' as int, 'E' as int]

  /** U+1D11E as RFC 8259 writes it. */
  lemma PairExample()
    ensures Legal(HIGH + LOW) && Plain(HIGH + LOW) == [0xED, 0xA0, 0xB4, 0xED, 0xB4, 0x9E]
    ensures Meaning(HIGH + LOW) == [0xF0, 0x9D, 0x84, 0x9E]
  {
    var t := HIGH + LOW;
    UnitExample(HIGH, LOW, 0xD834);
    UnitExample(LOW, [], 0xDD1E);
    assert LOW + [] == LOW;
    assert t[6..] == LOW;
    hide CharLength, HexFour, CharValue, Peek, Unescape, Legal, Plain, Meaning;
    TwoUnits(t);
    hide PairAt;
  }

  lemma TwoUnits(t: Str)
    requires |t| == 12 && CharLength(t) == CharLength(t[6..]) == 6
    ensures Legal(t) && Plain(t) == CharValue(t) + CharValue(t[6..]) && (PairAt(t) ==> Meaning(t) == PairValue(t))
  {
    hide CharLength, HexFour, CharValue, Peek, Unescape, PairAt, PairValue;
    OneChar(t[6..]);
    assert t[12..] == [] && Meaning([]) == [];
  }

  lemma UnitExample(unit: Str, more: Str, v: nat)
    requires (unit == HIGH && v == 0xD834) || (unit == LOW && v == 0xDD1E)
    ensures CharLength(unit + more) == 6 && HexFour(unit + more, 2) == v && CharValue(unit + more) == Utf8(v)
  {
    var t := unit + more;
    assert t[0] == unit[0] && t[1] == unit[1] && t[2] == unit[2] && t[3] == unit[3] && t[4] == unit[4] && t[5] == unit[5];
  }

  lemma OneChar(t: Str)
    requires t != [] && CharLength(t) == |t|
    ensures Legal(t) && Plain(t) == CharValue(t)
  {
    hide CharLength, CharValue;
    assert t[|t|..] == [] && Legal([]) && Plain([]) == [];
  }

  // ------------------------------------------------------ what is accepted

  /** The text t of a string is at p, and behind it there is the closing quote, before q, or the
      end of the source, at q. */
  predicate Spells(src: Str, p: nat, t: Str, q: nat) {
    && Legal(t) && Reads(src, p, t)
    && if Peek(src, p + |t|) == QUOTE then q == p + |t| + 1 else Peek(src, p + |t|) == 0 && q == p + |t|
  }

  /** The escape at a place of a source is that of the text which begins there. */
  lemma CharAtPlace(src: Str, p: nat, t: Str)
    requires p < |src| && t != [] && Reads(src, p, t)
    ensures CharLength(t) > 0 ==> CharLength(src[p..]) == CharLength(t) && CharValue(src[p..]) == CharValue(t)
  {
    assert forall i :: 0 <= i < |t| ==> t[i] == src[p..p + |t|][i] == src[p + i] == src[p..][i];
  }

  /** One character of a string. */
  lemma ReadOne(src: Str, p: nat, val: Str)
    requires p < |src|
    ensures var n := CharLength(src[p..]);
            ReadString(src, p, val) == if n > 0 then ReadString(src, p + n, val + CharValue(src[p..]))
                                       else if src[p] == 0 then Token(val, p)
                                       else if src[p] == QUOTE then Token(val, p + 1) else Bad
  {
    var t := src[p..];
    assert t[0] == src[p] && (p + 1 < |src| ==> t[1] == src[p + 1]);
    assert forall i: nat :: Peek(t, i) == Peek(src, p + i);
    assert HexFour(t, 2) == HexFour(src, p + 2);
  }

  lemma ReadsHead(src: Str, p: nat, t: Str, n: nat)
    requires n <= |t|
    ensures Reads(src, p, t) <==> Reads(src, p, t[..n]) && Reads(src, p + n, t[n..])
  {
    assert t == t[..n] + t[n..];
    if p + |t| <= |src| { assert src[p..p + |t|] == src[p..p + n] + src[p + n..p + |t|]; }
  }

  lemma LegalStep(t: Str)
    requires Legal(t) && t != []
    ensures CharLength(t) > 0 && Legal(t[CharLength(t)..]) && Plain(t) == CharValue(t) + Plain(t[CharLength(t)..])
  {
    hide CharLength, CharValue;
  }

  lemma SpellsRest(src: Str, p: nat, t: Str, q: nat)
    requires Spells(src, p, t, q) && t != []
    ensures var n := CharLength(t); n > 0 && Spells(src, p + n, t[n..], q)
  {
    hide CharLength, Reads;
    ReadsHead(src, p, t, CharLength(t));
  }

  lemma SpellsLegal(src: Str, p: nat, t: Str, q: nat)
    requires Spells(src, p, t, q)
    ensures Legal(t) && Reads(src, p, t)
  {
  }

  lemma ReadEnd(src: Str, p: nat, val: Str, q: nat)
    requires Spells(src, p, [], q)
    ensures Legal([]) && ReadString(src, p, val) == Token(val + Plain([]), q)
  {
    assert val + [] == val;
  }

  lemma ReadSpelled(src: Str, p: nat, val: Str, t: Str)
    requires t != [] && Reads(src, p, t) && CharLength(t) > 0
    ensures ReadString(src, p, val) == ReadString(src, p + CharLength(t), val + CharValue(t))
  {
    hide CharLength, CharValue, ReadString;
    CharAtPlace(src, p, t);
    ReadOne(src, p, val);
  }

  /** What follows the grammar is read, every character by itself. */
  lemma {:induction false} SpelledIsRead(src: Str, p: nat, val: Str, t: Str, q: nat)
    requires Spells(src, p, t, q)
    ensures ReadString(src, p, val) == Token(val + Plain(t), q)
    decreases |t|
  {
    hide Legal, Plain, Reads, CharLength, CharValue, ReadString, Spells, Peek;
    SpellsLegal(src, p, t, q);
    if t == [] {
      ReadEnd(src, p, val, q);
    } else {
      var n := CharLength(t);
      LegalStep(t);
      SpellsRest(src, p, t, q);
      ReadSpelled(src, p, val, t);
      SpelledIsRead(src, p + n, val + CharValue(t), t[n..], q);
      Assoc(val, CharValue(t), Plain(t[n..]));
    }
  }

  /** What is read follows the grammar, up to a closing quote or the end of the source. */
  lemma {:induction false} ReadIsSpelled(src: Str, p: nat, val: Str, v: Str, q: nat) returns (t: Str)
    requires p <= |src| && ReadString(src, p, val) == Token(v, q)
    ensures Spells(src, p, t, q) && v == val + Plain(t)
    decreases |src| - p
  {
    hide CharLength, CharValue, HexFour, Utf8;
    t := [];
    var n := if p < |src| then CharLength(src[p..]) else 0;
    if p < |src| { ReadOne(src, p, val); }
    if n > 0 {
      var head := src[p..p + n];
      var more := ReadIsSpelled(src, p + n, val + CharValue(src[p..]), v, q);
      t := head + more;
      SpelledOn(src, p, more, q);
      Assoc(val, CharValue(src[p..]), Plain(more));
    }
  }

  /** A character before a string that is spelled out. */
  lemma SpelledOn(src: Str, p: nat, more: Str, q: nat)
    requires p < |src| && CharLength(src[p..]) > 0 && Spells(src, p + CharLength(src[p..]), more, q)
    ensures var n := CharLength(src[p..]);
            var t := src[p..p + n] + more;
            Spells(src, p, t, q) && Plain(t) == CharValue(src[p..]) + Plain(more)
  {
    hide CharLength, CharValue, Reads, Peek;
    var n := CharLength(src[p..]);
    var t := src[p..p + n] + more;
    assert t[n..] == more && t[..n] == src[p..p + n] == src[p..][..n];
    ReadsHead(src, p, t, n);
    CharOfHead(src[p..], t);
    ReadsSlice(src, p, n);
  }

  lemma ReadsSlice(src: Str, p: nat, n: nat)
    requires p + n <= |src|
    ensures Reads(src, p, src[p..p + n])
  {
  }

  /** The first character decides by its own bytes. */
  lemma CharOfHead(a: Str, b: Str)
    requires CharLength(a) > 0 && CharLength(a) <= |b| && a[..CharLength(a)] == b[..CharLength(a)]
    ensures CharLength(b) == CharLength(a) && CharValue(b) == CharValue(a)
  {
    var n := CharLength(a);
    assert forall i :: 0 <= i < n ==> b[i] == b[..n][i] == a[i];
  }

  /** A string is accepted exactly if it follows the grammar up to its closing quote, or up to
      the end of the source, and then its value is that of its characters one by one. */
  lemma ReadIffSpelled(src: Str, p: nat, val: Str, v: Str, q: nat)
    requires p <= |src|
    ensures ReadString(src, p, val) == Token(v, q) <==> exists t :: Spells(src, p, t, q) && v == val + Plain(t)
  {
    if ReadString(src, p, val) == Token(v, q) { var t := ReadIsSpelled(src, p, val, v, q); }
    if t :| Spells(src, p, t, q) && v == val + Plain(t) { SpelledIsRead(src, p, val, t, q); }
  }

  // ------------------------------------------------- character by character

  /** The first character that is written is the first one of the grammar. */
  lemma SpotIsChar(x: Spot, more: Str)
    requires SpotOk(x)
    ensures var t := SpotText(x) + more;
            CharLength(t) == |SpotText(x)| && t[CharLength(t)..] == more && CharValue(t) == SpotValue(x)
  {
    var w := SpotText(x);
    var t := w + more;
    assert forall i :: 0 <= i < |w| ==> t[i] == w[i];
    if x.Unit? {
      HexIsHex(x.a); HexIsHex(x.b); HexIsHex(x.c); HexIsHex(x.d);
      hide IsHex, HexOf, HexValue;
      assert HexFour(t, 2) == 4096 * HexOf(x.a) + 256 * HexOf(x.b) + 16 * HexOf(x.c) + HexOf(x.d);
    }
  }

  lemma HexIsHex(c: Byte)
    ensures HexValue(c) == if IsHex(c) then HexOf(c) else -1
  {
  }

  lemma {:induction false} SpellingLegal(xs: seq<Spot>)
    requires SpotsOk(xs)
    ensures Legal(Spelling(xs)) && Plain(Spelling(xs)) == Spelled(xs)
  {
    if xs != [] {
      SpellingLegal(xs[1..]);
      SpotIsChar(xs[0], Spelling(xs[1..]));
    }
  }

  /** And the other way round: the grammar has no other strings. */
  lemma {:induction false} LegalSpelling(t: Str) returns (xs: seq<Spot>)
    requires Legal(t)
    ensures SpotsOk(xs) && Spelling(xs) == t
    decreases |t|
  {
    xs := [];
    if t != [] {
      var n := CharLength(t);
      var x := FirstSpot(t);
      var more := LegalSpelling(t[n..]);
      xs := [x] + more;
      assert xs[1..] == more && t == t[..n] + t[n..];
    }
  }

  lemma FirstSpot(t: Str) returns (x: Spot)
    requires CharLength(t) > 0
    ensures SpotOk(x) && SpotText(x) == t[..CharLength(t)]
  {
    if CharLength(t) == 1 {
      x := Bare(t[0]);
    } else if CharLength(t) == 2 {
      x := Escaped(t[1]);
    } else {
      HexIsHex(t[2]); HexIsHex(t[3]); HexIsHex(t[4]); HexIsHex(t[5]);
      x := Unit(t[2], t[3], t[4], t[5]);
    }
  }

  // ------------------------------------------------------ what is printed

  /** Printed strings follow the grammar, and mean the string, up to its first NUL. */
  lemma {:induction false} EscapedIsLegal(s: Str)
    ensures Legal(Escape(s)) && Pairs(Escape(s)) == 0
    ensures (forall i :: 0 <= i < |s| ==> s[i] != 0) ==> Plain(Escape(s)) == Meaning(Escape(s)) == s
  {
    if s != [] && s[0] != 0 {
      EscapedIsLegal(s[1..]);
      EscapedChar(s[0], Escape(s[1..]));
      assert [s[0]] + s[1..] == s;
    }
  }

  lemma EscapedChar(c: Byte, more: Str)
    requires c != 0
    ensures var t := EscapeChar(c) + more;
            CharLength(t) == |EscapeChar(c)| && CharValue(t) == [c] && t[CharLength(t)..] == more && !PairAt(t)
  {
    var e := EscapeChar(c);
    var t := e + more;
    assert forall i :: 0 <= i < |e| ==> t[i] == e[i];
    hide Meaning, Plain, Legal;
    if |e| == 6 {
      assert HexFour(t, 2) == c;
      hide HexFour;
    }
  }
}
