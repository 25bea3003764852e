/** What the word counters are to count: the places of a text where a word stands between
    delimiters or the ends of the text. */
module WordSearch {
  import opened Ascii

  /** Which characters can be part of a word, in rows of sixteen from 0x20 on. */
  function AlphabetRow(r: nat): (row: seq<int>)
    requires 2 <= r < 8
    ensures |row| == 16
  {
    match r
    case 2 => [0, 0, 0, 0, 0, 0, 0, 0, 0, 0, 0, 0, 0, 0, 0, 0]
    case 3 => [1, 1, 1, 1, 1, 1, 1, 1, 1, 1, 0, 0, 0, 0, 0, 0]
    case 4 => [0, 1, 1, 1, 1, 1, 1, 1, 1, 1, 1, 1, 1, 1, 1, 1]
    case 5 => [1, 1, 1, 1, 1, 1, 1, 1, 1, 1, 1, 0, 0, 0, 0, 1]
    case 6 => [0, 1, 1, 1, 1, 1, 1, 1, 1, 1, 1, 1, 1, 1, 1, 1]
    case _ => [1, 1, 1, 1, 1, 1, 1, 1, 1, 1, 1, 0, 0, 0, 0, 0]
  }

  predicate IsDelim(c: Ch) {
    c < 0x20 || AlphabetRow(c / 16)[c % 16] == 0
  }

  /** The table is that of the letters, the digits and the underscore. */
  lemma DelimMeaning(c: Ch)
    ensures IsDelim(c) <==> !('0' as int <= c <= '9' as int || 'A' as int <= c <= 'Z' as int || 'a' as int <= c <= 'z' as int || c == '_' as int)
  {
    if c >= 0x20 { RowMeaning(c / 16, c % 16); }
  }

  lemma RowMeaning(r: nat, i: nat)
    requires 2 <= r < 8 && i < 16
    ensures AlphabetRow(r)[i] ==
            (match r
             case 2 => 0
             case 3 => if i < 10 then 1 else 0
             case 5 => if i < 11 || i == 15 then 1 else 0
             case 7 => if i < 11 then 1 else 0
             case _ => if i > 0 then 1 else 0)
  {
    assert i in {0, 1, 2, 3, 4, 5, 6, 7, 8, 9, 10, 11, 12, 13, 14, 15};
  }

  /** The word is at p. */
  predicate At(w: seq<Ch>, text: seq<Ch>, p: nat) {
    p + |w| <= |text| && text[p..p + |w|] == w
  }

  /** It is at p with a delimiter, or an end of the text, on both sides. The text is raw, or
      raw with its case ignored. */
  predicate Standing(w: seq<Ch>, text: seq<Ch>, raw: seq<Ch>, delims: set<Ch>, p: nat)
    requires |raw| == |text|
  {
    && At(w, text, p)
    && (p == 0 || raw[p - 1] in delims)
    && (p + |w| == |text| || raw[p + |w|] in delims)
  }

  /** All the places where it is so, in the first n characters. */
  function Places(w: seq<Ch>, text: seq<Ch>, raw: seq<Ch>, delims: set<Ch>, n: nat): set<nat>
    requires |raw| == |text|
  {
    set p: nat | p <= |text| && p + |w| <= n && Standing(w, text, raw, delims, p)
  }

  function Count(w: seq<Ch>, text: seq<Ch>, raw: seq<Ch>, delims: set<Ch>, n: nat): (count: nat)
    requires |raw| == |text|
  {
    |Places(w, text, raw, delims, n)|
  }

  /** One character further there is one more place at most, the one that ends there. */
  lemma CountStep(w: seq<Ch>, text: seq<Ch>, raw: seq<Ch>, delims: set<Ch>, n: nat)
    requires 0 < |w| && n < |text| == |raw|
    ensures var hit := n + 1 >= |w| && Standing(w, text, raw, delims, n + 1 - |w|);
            Count(w, text, raw, delims, n + 1) == Count(w, text, raw, delims, n) + if hit then 1 else 0
  {
    hide Standing;
    var before, after := Places(w, text, raw, delims, n), Places(w, text, raw, delims, n + 1);
    if n + 1 >= |w| && Standing(w, text, raw, delims, n + 1 - |w|) {
      assert after == before + {n + 1 - |w|};
    } else {
      assert after == before;
    }
  }

  /** The first |w| - 1 characters have no place for w. */
  lemma CountNone(w: seq<Ch>, text: seq<Ch>, raw: seq<Ch>, delims: set<Ch>, n: nat)
    requires n < |w| && |raw| == |text|
    ensures Count(w, text, raw, delims, n) == 0
  {
  }

  // -------------------------------------------------------- the case of letters

  /** Equal, or a capital letter and the small letter 32 further on. */
  predicate SameLetter(c: Ch, d: Ch) {
    c == d || ('A' as int <= c <= 'Z' as int && d == c + 32) || ('A' as int <= d <= 'Z' as int && c == d + 32)
  }

  predicate SameWord(a: seq<Ch>, b: seq<Ch>) {
    |a| == |b| && forall i :: 0 <= i < |a| ==> SameLetter(a[i], b[i])
  }

  /** Ignoring the case is comparing letter by letter. */
  lemma FoldSame(a: seq<Ch>, b: seq<Ch>)
    ensures Fold(a) == Fold(b) <==> SameWord(a, b)
  {
    if Fold(a) == Fold(b) {
      assert |a| == |b|;
      forall i | 0 <= i < |a| ensures SameLetter(a[i], b[i]) { assert Lower(a[i]) == Fold(a)[i] == Fold(b)[i] == Lower(b[i]); }
    }
    if SameWord(a, b) {
      forall i | 0 <= i < |a| ensures Lower(a[i]) == Lower(b[i]) { assert SameLetter(a[i], b[i]); }
    }
  }

  /** At p the text is the word up to the case of letters, with a delimiter or an end of the text
      on both sides. */
  predicate Alone(word: seq<Ch>, text: seq<Ch>, delims: set<Ch>, p: nat) {
    && p + |word| <= |text| && SameWord(text[p..p + |word|], word)
    && (p == 0 || text[p - 1] in delims)
    && (p + |word| == |text| || text[p + |word|] in delims)
  }

  /** At how many places it is. */
  function Occurrences(word: seq<Ch>, text: seq<Ch>, delims: set<Ch>): nat {
    |set p: nat | p <= |text| && Alone(word, text, delims, p)|
  }

  /** Counting with the case put aside is counting up to the case of letters. */
  lemma CountIsOccurrences(word: seq<Ch>, text: seq<Ch>, delims: set<Ch>)
    ensures Count(Fold(word), Fold(text), text, delims, |text|) == Occurrences(word, text, delims)
  {
    forall p: nat | p <= |text|
      ensures p + |word| <= |text| && Standing(Fold(word), Fold(text), text, delims, p) <==> Alone(word, text, delims, p)
    {
      if p + |word| <= |text| {
        FoldSame(text[p..p + |word|], word);
        assert Fold(text)[p..p + |word|] == Fold(text[p..p + |word|]);
      }
    }
    assert Places(Fold(word), Fold(text), text, delims, |text|) == set p: nat | p <= |text| && Alone(word, text, delims, p);
  }

  function DefaultDelims(): set<Ch> {
    set c: Ch | 1 <= c < 128 && IsDelim(c)
  }

  /** What case a delimiter or its neighbours have makes no difference to the default ones. */
  lemma CaseOfDelims(w: seq<Ch>, text: seq<Ch>)
    ensures Count(Fold(w), Fold(text), text, DefaultDelims(), |text|) == Count(Fold(w), Fold(text), Fold(text), DefaultDelims(), |text|)
  {
    forall c: Ch ensures IsDelim(c) <==> IsDelim(Lower(c)) { DelimMeaning(c); DelimMeaning(Lower(c)); }
    assert Places(Fold(w), Fold(text), text, DefaultDelims(), |text|) == Places(Fold(w), Fold(text), Fold(text), DefaultDelims(), |text|);
  }
}
