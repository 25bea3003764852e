/** Counting one word with the algorithm of Knuth, Morris and Pratt. */
module KmpCount {
  import opened Ascii
  import opened WordSearch

  /** The first k characters of w are also the last k of its first i. */
  predicate Border(w: seq<Ch>, i: nat, k: nat) {
    k < i <= |w| && w[..k] == w[i - k..i]
  }

  /** A border that what follows the first i characters does not extend. */
  predicate Fallback(w: seq<Ch>, i: nat, k: nat) {
    Border(w, i, k) && CharAt(w, k) != CharAt(w, i)
  }

  /** The longest such border, -1 if there is none. */
  ghost predicate IsNext(w: seq<Ch>, i: nat, next: int) {
    && (next == -1 || (next >= 0 && Fallback(w, i, next)))
    && forall k: nat :: Fallback(w, i, k) ==> k <= next
  }

  /** The last k characters before j are the first k of w. */
  predicate Prefixed(w: seq<Ch>, text: seq<Ch>, j: nat, k: nat) {
    k <= |w| && k <= j <= |text| && w[..k] == text[j - k..j]
  }

  /** No border is longer than j. */
  ghost predicate LongestBorder(w: seq<Ch>, i: nat, j: int) {
    forall k: nat :: Border(w, i, k) ==> k <= j
  }

  /** The failure function for the first n lengths. */
  ghost predicate Table(w: seq<Ch>, kmpNext: seq<int>, n: nat) {
    n <= |w| && n < |kmpNext| && forall i :: 0 <= i <= n ==> IsNext(w, i, kmpNext[i])
  }

  /** Of two borders the shorter is a border of the longer. */
  lemma BorderOfBorder(w: seq<Ch>, i: nat, j: nat, k: nat)
    requires Border(w, i, j) && k < j
    ensures Border(w, i, k) <==> Border(w, j, k)
  {
  }

  lemma PrefixBorder(w: seq<Ch>, text: seq<Ch>, j: nat, i: nat, k: nat)
    requires Prefixed(w, text, j, i) && k < i
    ensures Prefixed(w, text, j, k) <==> Border(w, i, k)
  {
  }

  lemma BorderGrow(w: seq<Ch>, i: nat, k: nat)
    requires i < |w| && k < i
    ensures Border(w, i + 1, k + 1) <==> Border(w, i, k) && w[k] == w[i]
  {
    assert w[..k + 1] == w[..k] + [w[k]];
    assert w[i - k..i + 1] == w[i - k..i] + [w[i]];
  }

  lemma PrefixGrow(w: seq<Ch>, text: seq<Ch>, j: nat, k: nat)
    requires k < |w| && j < |text|
    ensures Prefixed(w, text, j + 1, k + 1) <==> Prefixed(w, text, j, k) && w[k] == text[j]
  {
  }

  /** After j = next the borders that the next character extends are still among those up to j. */
  ghost predicate Candidates(w: seq<Ch>, i: nat, j: int) {
    forall k: nat :: Border(w, i, k) && CharAt(w, k) == CharAt(w, i) ==> k <= j
  }

  /** The failure function. */
  method Preprocess(w: seq<Ch>, kmpNext: array<int>)
    requires 0 < |w| < kmpNext.Length
    modifies kmpNext
    ensures Table(w, kmpNext[..], |w|)
  {
    hide IsNext, Candidates, LongestBorder;
    var i, j := 0, -1;
    kmpNext[0] := -1;
    NoNext(w);
    while i < |w|
      invariant 0 <= i <= |w| && (i == 0 ==> j == -1) && (i > 0 ==> j >= 0 && Border(w, i, j))
      invariant LongestBorder(w, i, j) && Table(w, kmpNext[..], i)
    {
      FirstCandidates(w, i, j);
      while j > -1 && w[i] != w[j]
        invariant -1 <= j < i && (j >= 0 ==> Border(w, i, j)) && Candidates(w, i, j) && Table(w, kmpNext[..], i)
        decreases j
      {
        SkipBorders(w, i, j, kmpNext[j]);
        j := kmpNext[j];
      }
      Extended(w, i, j);
      i := i + 1;
      j := j + 1;
      if CharAt(w, i) == CharAt(w, j) {
        NextOfSame(w, i, j, kmpNext[j]);
        kmpNext[i] := kmpNext[j];
      } else {
        NextOfOther(w, i, j);
        kmpNext[i] := j;
      }
    }
  }

  /** Where w[j] is not the character wanted, the borders between next and j are not wanted. */
  lemma SkipBorders(w: seq<Ch>, i: nat, j: nat, next: int)
    requires i < |w| && Border(w, i, j) && w[i] != w[j] && Candidates(w, i, j) && IsNext(w, j, next)
    ensures -1 <= next < j && (next >= 0 ==> Border(w, i, next)) && Candidates(w, i, next)
  {
    if next >= 0 { BorderOfBorder(w, i, j, next); }
    forall k: nat | Border(w, i, k) && CharAt(w, k) == CharAt(w, i) ensures k <= next {
      if k < j {
        BorderOfBorder(w, i, j, k);
        assert Fallback(w, j, k);
      }
    }
  }

  /** One character more. */
  lemma Extended(w: seq<Ch>, i: nat, j: int)
    requires i < |w| && -1 <= j < i && (j >= 0 ==> Border(w, i, j) && w[i] == w[j]) && Candidates(w, i, j)
    ensures Border(w, i + 1, j + 1) && LongestBorder(w, i + 1, j + 1)
  {
    if j >= 0 { BorderGrow(w, i, j); } else { assert w[..0] == w[i + 1..i + 1]; }
    var n := i + 1;
    forall k: nat | Border(w, n, k) ensures k <= j + 1 {
      if k > 0 && k - 1 < i { BorderGrow(w, i, k - 1); }
    }
  }

  lemma NoNext(w: seq<Ch>)
    ensures IsNext(w, 0, -1) && LongestBorder(w, 0, -1)
  {
  }

  lemma FirstCandidates(w: seq<Ch>, i: nat, j: int)
    requires LongestBorder(w, i, j)
    ensures Candidates(w, i, j)
  {
  }

  lemma NextOfOther(w: seq<Ch>, i: nat, j: nat)
    requires Border(w, i, j) && CharAt(w, i) != CharAt(w, j) && LongestBorder(w, i, j)
    ensures IsNext(w, i, j)
  {
  }

  lemma NextOfSame(w: seq<Ch>, i: nat, j: nat, next: int)
    requires Border(w, i, j) && CharAt(w, i) == CharAt(w, j) && IsNext(w, j, next)
    requires LongestBorder(w, i, j)
    ensures IsNext(w, i, next)
  {
    if next >= 0 { BorderOfBorder(w, i, j, next); }
    forall k: nat | Fallback(w, i, k) ensures k <= next {
      if k < j {
        BorderOfBorder(w, i, j, k);
        assert Fallback(w, j, k);
      }
    }
  }

  // ------------------------------------------------------------ searching

  /** No more than i characters before j, short of all of w, are the beginning of w. */
  ghost predicate LongestPrefix(w: seq<Ch>, text: seq<Ch>, j: nat, i: int) {
    forall k: nat :: Prefixed(w, text, j, k) && k < |w| ==> k <= i
  }

  /** The beginnings of w that text[j] extends are no longer than i. */
  ghost predicate TextCandidates(w: seq<Ch>, text: seq<Ch>, j: nat, i: int) {
    forall k: nat :: Prefixed(w, text, j, k) && k < |w| && CharAt(w, k) == CharAt(text, j) ==> k <= i
  }

  lemma SkipPrefixes(w: seq<Ch>, text: seq<Ch>, j: nat, i: nat, next: int)
    requires i < |w| && j < |text| && Prefixed(w, text, j, i) && w[i] != text[j] && TextCandidates(w, text, j, i) && IsNext(w, i, next)
    ensures -1 <= next < i && (next >= 0 ==> Prefixed(w, text, j, next)) && TextCandidates(w, text, j, next)
  {
    if next >= 0 { PrefixBorder(w, text, j, i, next); }
    forall k: nat | Prefixed(w, text, j, k) && k < |w| && CharAt(w, k) == CharAt(text, j) ensures k <= next {
      if k < i {
        PrefixBorder(w, text, j, i, k);
        assert Fallback(w, i, k);
      }
    }
  }

  lemma ExtendedPrefix(w: seq<Ch>, text: seq<Ch>, j: nat, i: int)
    requires j < |text| && -1 <= i < |w| && (i >= 0 ==> Prefixed(w, text, j, i) && w[i] == text[j]) && TextCandidates(w, text, j, i)
    ensures Prefixed(w, text, j + 1, i + 1) && LongestPrefix(w, text, j + 1, i + 1)
    ensures Prefixed(w, text, j + 1, |w|) ==> i + 1 == |w|
  {
    if i >= 0 { PrefixGrow(w, text, j, i); } else { assert w[..0] == text[j + 1..j + 1]; }
    var n := j + 1;
    forall k: nat | Prefixed(w, text, n, k) ensures k <= i + 1 {
      if k > 0 { PrefixGrow(w, text, j, k - 1); }
    }
  }

  /** After a match, the longest border of w is what is left of it. */
  lemma AfterMatch(w: seq<Ch>, text: seq<Ch>, j: nat, next: int)
    requires w != [] && Prefixed(w, text, j, |w|) && IsNext(w, |w|, next)
    ensures 0 <= next < |w| && Prefixed(w, text, j, next) && LongestPrefix(w, text, j, next)
  {
    assert Fallback(w, |w|, 0);
    PrefixBorder(w, text, j, |w|, next);
    forall k: nat | Prefixed(w, text, j, k) && k < |w| ensures k <= next {
      PrefixBorder(w, text, j, |w|, k);
      assert Fallback(w, |w|, k);
    }
  }

  lemma StartPrefix(w: seq<Ch>, text: seq<Ch>)
    requires w != []
    ensures Prefixed(w, text, 0, 0) && LongestPrefix(w, text, 0, 0)
  {
  }

  lemma FirstTextCandidates(w: seq<Ch>, text: seq<Ch>, j: nat, i: int)
    requires LongestPrefix(w, text, j, i)
    ensures TextCandidates(w, text, j, i)
  {
  }

  /** bkCountWords: the places of a word, all of them or whether there is one. The steps are
      those taken along the failure function during the search. */
  method CountWords(word: seq<Ch>, text: seq<Ch>, all: bool) returns (count: nat, ghost steps: nat)
    ensures word == [] ==> count == 0
    ensures word != [] && all ==> count == Count(word, text, text, DefaultDelims(), |text|)
    ensures word != [] && !all ==> (count == 1 <==> Count(word, text, text, DefaultDelims(), |text|) > 0) && count <= 1
    ensures steps <= |text|
  {
    hide IsNext, Prefixed, TextCandidates, Standing, IsDelim, At;
    count, steps := 0, 0;
    if |word| == 0 || |text| == 0 || |word| > |text| {
      if |word| > |text| { CountNone(word, text, text, DefaultDelims(), |text|); }
      return;
    }
    var kmpNext := new int[|text| + 1];
    Preprocess(word, kmpNext);
    var i, j := 0, 0;
    StartPrefix(word, text);
    CountNone(word, text, text, DefaultDelims(), 0);
    while j < |text|
      invariant 0 <= j <= |text| && 0 <= i < |word| && Table(word, kmpNext[..], |word|)
      invariant Prefixed(word, text, j, i) && LongestPrefix(word, text, j, i)
      invariant count == Count(word, text, text, DefaultDelims(), j) && (!all ==> count == 0)
      invariant steps + i <= j
    {
      FirstTextCandidates(word, text, j, i);
      while i > -1 && word[i] != text[j]
        invariant -1 <= i < |word| && (i >= 0 ==> Prefixed(word, text, j, i)) && TextCandidates(word, text, j, i)
        invariant Table(word, kmpNext[..], |word|)
        invariant steps + i <= j
        decreases i
      {
        SkipPrefixes(word, text, j, i, kmpNext[i]);
        i := kmpNext[i];
        steps := steps + 1;
      }
      ExtendedPrefix(word, text, j, i);
      CountStep(word, text, text, DefaultDelims(), j);
      EndsHere(word, text, DefaultDelims(), j + 1);
      i := i + 1;
      j := j + 1;
      if i >= |word| {
        if (j - i == 0 || IsDelim(text[j - i - 1])) && (j == |text| || IsDelim(text[j])) {
          count := count + 1;
          if !all {
            CountGrows(word, text, DefaultDelims(), j);
            return;
          }
        }
        AfterMatch(word, text, j, kmpNext[i]);
        i := kmpNext[i];
      }
    }
  }

  lemma EndsHere(w: seq<Ch>, text: seq<Ch>, delims: set<Ch>, j: nat)
    requires j <= |text| && w != []
    ensures Prefixed(w, text, j, |w|) <==> |w| <= j && At(w, text, j - |w|)
    ensures |w| <= j && Standing(w, text, text, delims, j - |w|) <==>
            Prefixed(w, text, j, |w|) && (j - |w| == 0 || text[j - |w| - 1] in delims) && (j == |text| || text[j] in delims)
  {
  }

  lemma CountGrows(w: seq<Ch>, text: seq<Ch>, delims: set<Ch>, n: nat)
    requires n <= |text|
    ensures Count(w, text, text, delims, n) <= Count(w, text, text, delims, |text|)
  {
    SubsetSize(Places(w, text, text, delims, n), Places(w, text, text, delims, |text|));
  }

  lemma {:induction false} SubsetSize(a: set<nat>, b: set<nat>)
    requires a <= b
    ensures |a| <= |b|
  {
    if x :| x in a { SubsetSize(a - {x}, b - {x}); }
  }
}
