/** The two word counters side by side. */
module WordCounters {
  import opened Ascii
  import opened WordSearch
  import opened KmpCount
  import opened AhoCorasick

  /** The counters of one search for all the words, and the searches for one word after the
      other, with the case of words and text put aside beforehand. */
  method CountBoth(words: seq<seq<Ch>>, text: seq<Ch>) returns (together: seq<nat>, apart: seq<nat>)
    requires |words| <= 32 && Roomy(words)
    ensures together == apart && |together| == |words|
  {
    hide Fold, Count, Occurrences, Roomy;
    var counter := new AhoCorasick();
    var i := 0;
    while i < |words|
      invariant 0 <= i <= |words| && counter.Valid() && counter.list == words[..i]
      invariant counter.matches == null && counter.Delims() == DefaultDelims()
    {
      counter.Add(words[i]);
      i := i + 1;
    }
    assert words[..|words|] == words;
    var total := counter.Search(text);
    together, apart, i := counter.counters, [], 0;
    while i < |words|
      invariant 0 <= i == |apart| <= |words| && forall j :: 0 <= j < i ==> apart[j] == together[j]
    {
      CountIsOccurrences(words[i], text, DefaultDelims());
      CaseOfDelims(words[i], text);
      FoldLength(words[i]);
      var count, steps := CountWords(Fold(words[i]), Fold(text), true);
      apart := apart + [count];
      i := i + 1;
    }
  }

  lemma FoldLength(word: seq<Ch>)
    ensures Fold(word) == [] <==> word == []
  {
    assert |Fold(word)| == |word|;
  }
}
