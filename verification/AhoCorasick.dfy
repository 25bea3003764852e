/** Counting many words in one pass over the text, with the automaton of Aho and Corasick. */
module AhoCorasick {
  import opened Bytes
  import opened Ascii
  import opened WordSearch
  import opened WordTrie

  /** The words with their case ignored. */
  function Folded(list: seq<Str>): (words: seq<Str>)
    ensures |words| == |list| && forall i :: 0 <= i < |list| ==> words[i] == Fold(list[i])
  {
    seq(|list|, i requires 0 <= i < |list| => Fold(list[i]))
  }

  function TotalSize(list: seq<Str>, n: nat): nat
    requires n <= |list|
  {
    if n == 0 then 0 else TotalSize(list, n - 1) + |list[n - 1]|
  }

  // ------------------------------------------------- how large the tables are

  /** The strings of which the trie of some words has a node. */
  function Prefixes(words: seq<Str>): (nodes: set<Str>)
    ensures [] in nodes
  {
    {[]} + set i, n | 0 <= i < |words| && 0 <= n <= |words[i]| :: words[i][..n]
  }

  /** The size of a table of edges, a 32-bit product. */
  function EdgeRoom(list: seq<Str>): nat {
    256 * ((1 + TotalSize(list, |list|)) % WORD32) % WORD32
  }

  /** The tables that are allocated have room for all nodes, and the place of every edge is an
      int. */
  ghost predicate Roomy(list: seq<Str>) {
    var nodes := |Prefixes(Folded(list))|;
    256 * nodes <= EdgeRoom(list) && 256 * nodes <= 0x8000_0000
  }

  /** Up to 2^23 characters in all there is room. */
  lemma SmallIsRoomy(list: seq<Str>)
    requires 1 + TotalSize(list, |list|) <= 0x80_0000
    ensures Roomy(list)
  {
    PrefixesBound(list, |list|);
    assert Folded(list)[..|list|] == Folded(list);
    hide *;
    EdgeRoomSmall(list);
    assert |Prefixes(Folded(list))| <= 1 + TotalSize(list, |list|);
    RoomyMeans(list);
  }

  lemma EdgeRoomSmall(list: seq<Str>)
    requires 1 + TotalSize(list, |list|) <= 0x80_0000
    ensures EdgeRoom(list) == 256 * (1 + TotalSize(list, |list|))
  {
    hide TotalSize;
  }

  lemma RoomyMeans(list: seq<Str>)
    ensures var nodes := |Prefixes(Folded(list))|;
            Roomy(list) <==> 256 * nodes <= EdgeRoom(list) && 256 * nodes <= 0x8000_0000
  {
    hide Prefixes, EdgeRoom;
  }

  /** One word of 16777215 characters leaves no room at all. */
  lemma NoRoomExample(word: Str)
    requires |word| == 0xFF_FFFF
    ensures !Roomy([word])
  {
    assert TotalSize([word], 1) == TotalSize([word], 0) + |word| && EdgeRoom([word]) == 0;
    assert |Prefixes(Folded([word]))| > 0;
  }

  lemma {:induction false} PrefixesBound(list: seq<Str>, k: nat)
    requires k <= |list|
    ensures |Prefixes(Folded(list)[..k])| <= 1 + TotalSize(list, k)
  {
    var words := Folded(list);
    if k == 0 {
      assert Prefixes(words[..0]) == {[]};
    } else {
      PrefixesBound(list, k - 1);
      var before, w := Prefixes(words[..k - 1]), words[k - 1];
      var more := Beginnings(w);
      LongPrefixes(w, |w|);
      assert Prefixes(words[..k]) == before + more by { OneMoreWord(words, k); }
    }
  }

  function Beginnings(w: Str): set<Str> {
    set n | 1 <= n <= |w| :: w[..n]
  }

  lemma OneMoreWord(words: seq<Str>, k: nat)
    requires 1 <= k <= |words|
    ensures Prefixes(words[..k]) == Prefixes(words[..k - 1]) + Beginnings(words[k - 1])
  {
    var a, b, w := words[..k], words[..k - 1], words[k - 1];
    forall p | p in Prefixes(a) ensures p in Prefixes(b) + Beginnings(w) {
      if p != [] {
        var i, n :| 0 <= i < |a| && 0 <= n <= |a[i]| && p == a[i][..n];
        if i < k - 1 { assert b[i] == a[i]; } else { assert p == w[..n] && n >= 1; }
      }
    }
    forall p | p in Prefixes(b) ensures p in Prefixes(a) {
      if p != [] {
        var i, n :| 0 <= i < |b| && 0 <= n <= |b[i]| && p == b[i][..n];
        assert a[i] == b[i];
      }
    }
    assert a[k - 1] == w;
  }

  lemma {:induction false} LongPrefixes(w: Str, k: nat)
    requires k <= |w|
    ensures |set n | 1 <= n <= k :: w[..n]| <= k
  {
    if k > 0 {
      LongPrefixes(w, k - 1);
      assert (set n | 1 <= n <= k :: w[..n]) == (set n | 1 <= n <= k - 1 :: w[..n]) + {w[..k]};
    }
  }

  /** Different nodes are different prefixes. */
  lemma {:induction false} NodesBound(paths: seq<Str>, nodes: set<Str>)
    requires (forall q, r :: 0 <= q < r < |paths| ==> paths[q] != paths[r]) && forall p | p in paths :: p in nodes
    ensures |paths| <= |nodes|
    decreases |paths|
  {
    if paths != [] {
      var last := paths[|paths| - 1];
      assert forall p | p in paths[..|paths| - 1] :: p in nodes - {last};
      NodesBound(paths[..|paths| - 1], nodes - {last});
    }
  }

  /** When every word is a path there is a node for every prefix. */
  lemma AllNodes(words: seq<Str>, paths: seq<Str>, g: seq<int>)
    requires Trie(paths, g, false) && (forall i :: 0 <= i < |words| ==> words[i] in paths) && forall p | p in paths :: p in Prefixes(words)
    ensures |paths| == |Prefixes(words)|
  {
    NodesBound(paths, Prefixes(words));
    forall p | p in Prefixes(words) ensures p in paths {
      if p != [] {
        var i, n :| 0 <= i < |words| && 0 <= n <= |words[i]| && p == words[i][..n];
        PrefixIsPath(paths, g, words[i], n);
      }
    }
    PathsBound(paths, Prefixes(words));
  }

  lemma {:induction false} PrefixIsPath(paths: seq<Str>, g: seq<int>, w: Str, n: nat)
    requires Trie(paths, g, false) && w in paths && n <= |w|
    ensures w[..n] in paths
    decreases |w|
  {
    if n < |w| {
      Shorter(paths, g, false, w);
      PrefixIsPath(paths, g, w[..|w| - 1], n);
      assert w[..|w| - 1][..n] == w[..n];
    } else {
      assert w[..n] == w;
    }
  }

  lemma {:induction false} PathsBound(paths: seq<Str>, nodes: set<Str>)
    requires forall p | p in nodes :: p in paths
    ensures |nodes| <= |paths|
    decreases |paths|
  {
    if paths == [] {
      assert nodes == {};
    } else {
      var last := paths[|paths| - 1];
      PathsBound(paths[..|paths| - 1], nodes - {last});
    }
  }

  function Sum(s: seq<nat>): nat {
    if s == [] then 0 else Sum(s[..|s| - 1]) + s[|s| - 1]
  }

  lemma {:induction false} SumZero(n: nat)
    ensures Sum(seq(n, _ => 0)) == 0
  {
    if n > 0 {
      assert seq(n, _ => 0)[..n - 1] == seq(n - 1, _ => 0);
      SumZero(n - 1);
    }
  }

  lemma {:induction false} SumStep(s: seq<nat>, j: nat)
    requires j < |s|
    ensures Sum(s[j := s[j] + 1]) == Sum(s) + 1
    decreases |s|
  {
    var t, n := s[j := s[j] + 1], |s| - 1;
    if j < n {
      assert t[..n] == s[..n][j := s[..n][j] + 1];
      SumStep(s[..n], j);
    } else {
      assert t[..n] == s[..n];
    }
  }

  /** The trie of the first n words and a beginning of the next one. */
  ghost predicate TrieOf(words: seq<Str>, n: nat, paths: seq<Str>, g: seq<int>, m: seq<set<nat>>) {
    && n <= |words| && Trie(paths, g, false) && paths[0] == [] && |paths| <= |m| && 256 * |paths| <= |g|
    && (forall p | p in paths :: p in Prefixes(words))
    && (forall k :: 256 * |paths| <= k < |g| ==> g[k] == -1)
    && (forall t: nat :: |paths| <= t < |m| ==> m[t] == {})
    && (forall i :: 0 <= i < n ==> words[i] in paths)
    && forall t: nat :: t < |paths| ==> EndsAt(words[..n], paths, m, t)
  }

  lemma TrieGrows(words: seq<Str>, n: nat, paths: seq<Str>, g: seq<int>, m: seq<set<nat>>, r: nat, c: Ch)
    requires TrieOf(words, n, paths, g, m) && r < |paths| && g[r * 256 + c] == -1
    requires |paths| < |m| && 256 * (|paths| + 1) <= |g| && paths[r] + [c] in Prefixes(words)
    ensures TrieOf(words, n, paths + [paths[r] + [c]], g[r * 256 + c := |paths|], m)
  {
    Grow(paths, g, r, c);
    Child(paths, g, false, r, c);
    var paths' := paths + [paths[r] + [c]];
    forall t: nat | t < |paths'| ensures EndsAt(words[..n], paths', m, t) {
      if t < |paths| { assert EndsAt(words[..n], paths, m, t); }
    }
    forall i | 0 <= i < n ensures words[i] in paths' { assert words[i] in paths; }
  }

  lemma WordDone(words: seq<Str>, n: nat, paths: seq<Str>, g: seq<int>, m: seq<set<nat>>, r: nat)
    requires TrieOf(words, n, paths, g, m) && n < |words| && r < |paths| && paths[r] == words[n]
    ensures TrieOf(words, n + 1, paths, g, m[r := m[r] + {n}])
  {
    var m' := m[r := m[r] + {n}];
    hide Trie;
    var firsts := words[..n + 1];
    forall t: nat | t < |paths| ensures EndsAt(firsts, paths, m', t) {
      assert EndsAt(words[..n], paths, m, t);
      forall i: nat ensures i in m'[t] <==> (i < |firsts| && firsts[i] == paths[t]) {
        if i < n { assert words[..n][i] == words[i]; }
        if i == n && words[n] == paths[t] { SamePath(paths, g, r, t); }
      }
    }
  }

  lemma SamePath(paths: seq<Str>, g: seq<int>, r: nat, t: nat)
    requires Trie(paths, g, false) && r < |paths| && t < |paths| && paths[r] == paths[t]
    ensures r == t
  {
  }

  /** The tables are finished. */
  ghost predicate Ready(a: Tables, failures: seq<int>, m: seq<set<nat>>) {
    && TablesOk(a) && |a.paths| <= |failures| && |a.paths| <= |m|
    && (forall q: nat :: 1 <= q < |a.paths| ==> FailOk(a.paths, failures, q))
    && (forall q: nat :: q < |a.paths| ==> MatchesOk(a.words, a.paths, m, q))
  }

  class AhoCorasick {
    var list: seq<Str>
    const alphabet: array<bool>
    var count: nat
    var counters: seq<nat>
    var matches: array?<set<nat>>
    var failures: array?<int>
    var gotos: array?<int>
    ghost var paths: seq<Str>
    ghost var words: seq<Str>

    constructor ()
      ensures Valid() && list == [] && matches == null && fresh(alphabet) && Delims() == DefaultDelims()
    {
      alphabet := new bool[256](c requires 0 <= c < 256 => 0x20 <= c < 0x80 && AlphabetRow(c / 16)[c % 16] != 0);
      list, count, counters := [], 0, [];
      matches, failures, gotos, paths, words := null, null, null, [], [];
    }

    /** Once they are made, the tables are those of the words there were then. */
    ghost predicate Valid()
      reads this`list, this`matches, this`failures, this`gotos, this`paths, this`words, matches, failures, gotos
    {
      && alphabet.Length == 256
      && (matches == null ==> words == [])
      && (matches != null ==>
            && failures != null && gotos != null
            && |words| <= |list| && words == Folded(list)[..|words|]
            && Ready(Tables(words, paths, gotos[..]), failures[..], matches[..]))
    }

    function Delims(): set<Ch>
      reads alphabet
      requires alphabet.Length == 256
    {
      set c: Ch | 1 <= c < 128 && !alphabet[c]
    }

    /** The trie of all words. */
    method BuildTrie(matches: array<set<nat>>, gotos: array<int>) returns (ghost paths: seq<Str>)
      requires var nodes := |Prefixes(Folded(list))|; nodes <= matches.Length && 256 * nodes <= gotos.Length
      requires (forall i :: 0 <= i < matches.Length ==> matches[i] == {}) && (forall i :: 0 <= i < gotos.Length ==> gotos[i] == -1)
      modifies matches, gotos
      ensures TrieOf(Folded(list), |list|, paths, gotos[..], matches[..]) && |paths| == |Prefixes(Folded(list))|
    {
      hide Trie, EdgeOk, Folded, Prefixes;
      ghost var words := Folded(list);
      paths := [[]];
      TrieStart(words, gotos[..], matches[..]);
      var state, i := 1, 0;
      while i < |list|
        invariant 0 <= i <= |list| && TrieOf(words, i, paths, gotos[..], matches[..])
        invariant state == |paths|
      {
        var r, j := 0, 0;
        while j < |list[i]|
          invariant 0 <= j <= |list[i]| && 0 <= r < |paths| && TrieOf(words, i, paths, gotos[..], matches[..])
          invariant paths[r] == words[i][..j] && state == |paths|
        {
          var c := Lower(list[i][j]);
          if gotos[r * 256 + c] == -1 {
            RoomForNode(words, paths, gotos[..], r, i, j);
            TrieGrows(words, i, paths, gotos[..], matches[..], r, c);
            gotos[r * 256 + c] := state;
            paths := paths + [paths[r] + [c]];
            state := state + 1;
          }
          FollowEdge(paths, gotos[..], r, c);
          r := gotos[r * 256 + c];
          j := j + 1;
        }
        WordDone(words, i, paths, gotos[..], matches[..], r);
        matches[r] := matches[r] + {i};
        i := i + 1;
      }
      AllNodes(words, paths, gotos[..]);
    }

    /** A new node is one of those for which there is room. */
    lemma RoomForNode(words: seq<Str>, paths: seq<Str>, g: seq<int>, r: nat, i: nat, j: nat)
      requires Trie(paths, g, false) && (forall p | p in paths :: p in Prefixes(words))
      requires r < |paths| && i < |words| && j < |words[i]| && paths[r] == words[i][..j] && g[r * 256 + words[i][j]] == -1
      ensures paths[r] + [words[i][j]] in Prefixes(words) && |paths| < |Prefixes(words)|
    {
      var node := paths[r] + [words[i][j]];
      assert node == words[i][..j + 1];
      Child(paths, g, false, r, words[i][j]);
      NodesBound(paths + [node], Prefixes(words));
    }

    lemma TrieStart(words: seq<Str>, g: seq<int>, m: seq<set<nat>>)
      requires |m| >= 1 && |g| >= 256 && (forall i :: 0 <= i < |m| ==> m[i] == {}) && (forall i :: 0 <= i < |g| ==> g[i] == -1)
      ensures TrieOf(words, 0, [[]], g, m)
    {
    }

    lemma FollowEdge(paths: seq<Str>, g: seq<int>, r: nat, c: Ch)
      requires Trie(paths, g, false) && r < |paths| && g[r * 256 + c] != -1
      ensures 0 <= g[r * 256 + c] < |paths| && paths[g[r * 256 + c]] == paths[r] + [c]
    {
      assert EdgeOk(paths, g, r, c, false);
    }

    /** From node r for c: back along the failure links to an edge, and over it. */
    method Follow(failures: array<int>, gotos: array<int>, r: nat, c: Ch, ghost a: Tables, ghost b: Str) returns (s: nat)
      requires a.g == gotos[..] && TablesOk(a) && r < |a.paths| && Longest(a.paths, b, r)
      requires forall q: nat :: 1 <= q < |a.paths| && |a.paths[q]| <= |a.paths[r]| ==> FailOk(a.paths, failures[..], q)
      ensures Longest(a.paths, b + [c], s)
    {
      hide Trie, Longest, Suffix;
      LongestIsSuffix(a.paths, b, r);
      AllCandidates(a.paths, b, c, r);
      var failure := r;
      while gotos[failure * 256 + c] == -1
        invariant 0 <= failure < |a.paths| && |a.paths[failure]| <= |a.paths[r]|
        invariant Suffix(a.paths[failure], b) && Candidates(a.paths, b, c, failure)
        decreases |a.paths[failure]|
      {
        RootHasEdges(a.paths, a.g, failure, c);
        FallBack(a.paths, a.g, failures[..], b, c, failure);
        failure := failures[failure];
      }
      Advance(a.paths, a.g, b, c, failure);
      LongestIsSuffix(a.paths, b + [c], gotos[failure * 256 + c]);
      s := gotos[failure * 256 + c];
    }

    /** The root has an edge for every character. */
    method CloseRoot(gotos: array<int>)
      requires gotos.Length >= 256
      modifies gotos
      ensures forall k :: 0 <= k < gotos.Length ==> gotos[k] == if k < 256 && old(gotos[k]) == -1 then 0 else old(gotos[k])
    {
      var c := 0;
      while c < 256
        invariant 0 <= c <= 256
        invariant forall k :: 0 <= k < gotos.Length ==> gotos[k] == if k < c && old(gotos[k]) == -1 then 0 else old(gotos[k])
      {
        if gotos[c] == -1 { gotos[c] := 0; }
        c := c + 1;
      }
    }

    /** The failure links, level by level. */
    method BuildFailures(matches: array<set<nat>>, failures: array<int>, gotos: array<int>, ghost a: Tables)
      requires failures != gotos && a.g == gotos[..] && TablesOk(a) && |a.paths| <= failures.Length && |a.paths| <= matches.Length
      requires forall t: nat :: t < |a.paths| ==> EndsAt(a.words, a.paths, matches[..], t)
      modifies matches, failures
      ensures Ready(a, failures[..], matches[..])
    {
      hide TablesOk, EndsAt, MatchesOk, FailOk, Frontier;
      ghost var known: set<nat>, todo: set<nat> := {}, NodesBelow(|a.paths|);
      var queued: seq<nat> := [];
      SearchStart(a, failures[..], matches[..], todo);
      TablesFit(a);
      var c := 0;
      while c < 256
        invariant 0 <= c <= 256 && Frontier(a, failures[..], matches[..], known, todo, queued, 0, 0, c)
      {
        if gotos[c] != -1 && gotos[c] != 0 {
          RootEdge(a, 0, c);
          RootChild(a, failures[..], matches[..], known, todo, queued, c, gotos[c]);
          failures[gotos[c]] := 0;
          known := known + {gotos[c]};
          queued := queued + [gotos[c]];
        } else {
          NoChild(a, failures[..], matches[..], known, todo, queued, 0, 0, c);
        }
        c := c + 1;
      }
      NodeDone(a, failures[..], matches[..], known, todo, queued, 0, 0);
      ghost var d: nat := 0;
      while |queued| > 0
        invariant Frontier(a, failures[..], matches[..], known, todo, queued, d, -1, 0)
        decreases todo
      {
        NodeTaken(a, failures[..], matches[..], known, todo, queued, d);
        var r := queued[0];
        DeepNow(a, failures[..], matches[..], known, todo, queued, d, |a.paths[r]|);
        d := |a.paths[r]|;
        queued := queued[1..];
        todo := todo - {r};
        queued, known := Expand(matches, failures, gotos, r, queued, a, known, todo);
      }
      AllDone(a, failures[..], matches[..], known, todo, d);
    }

    /** The children of node r: their failure links and matches. */
    method Expand(matches: array<set<nat>>, failures: array<int>, gotos: array<int>, r: nat, queue: seq<nat>, ghost a: Tables,
                  ghost known0: set<nat>, ghost todo: set<nat>)
      returns (queued: seq<nat>, ghost known: set<nat>)
      requires failures != gotos && a.g == gotos[..] && 1 <= r < |a.paths|
      requires Frontier(a, failures[..], matches[..], known0, todo, queue, |a.paths[r]|, r, 0)
      requires Deep(a, known0, |a.paths[r]|) && r !in todo
      modifies matches, failures
      ensures Frontier(a, failures[..], matches[..], known, todo, queued, |a.paths[r]|, -1, 0)
    {
      hide TablesOk, EndsAt, MatchesOk, Longest, Suffix, Level, Queued, Explored;
      ghost var d := |a.paths[r]|;
      queued, known := queue, known0;
      var c := 0;
      TablesFit(a);
      while c < 256
        invariant 0 <= c <= 256 && Frontier(a, failures[..], matches[..], known, todo, queued, d, r, c) && Deep(a, known, d)
      {
        if gotos[r * 256 + c] != -1 {
          RootEdge(a, r, c);
          KnownLinks(a, failures[..], matches[..], known, d);
          FailLink(a.paths, failures[..], r);
          var failure := Follow(failures, gotos, failures[r], c, a, a.paths[r][1..]);
          var t := gotos[r * 256 + c];
          LongestBound(a.paths, a.paths[r], c, failure);
          DeepChild(a, failures[..], matches[..], known, todo, queued, d, r, c, t, failure);
          failures[t] := failure;
          matches[t] := matches[t] + matches[failure];
          queued, known := queued + [t], known + {t};
        } else {
          NoChild(a, failures[..], matches[..], known, todo, queued, d, r, c);
        }
        c := c + 1;
      }
      NodeDone(a, failures[..], matches[..], known, todo, queued, d, r);
    }

    lemma AllDone(a: Tables, failures: seq<int>, m: seq<set<nat>>, known: set<nat>, todo: set<nat>, d: nat)
      requires Frontier(a, failures, m, known, todo, [], d, -1, 0)
      ensures Ready(a, failures, m)
    {
      forall x: nat | x < |a.paths| ensures x > 0 ==> FailOk(a.paths, failures, x)
      ensures MatchesOk(a.words, a.paths, m, x)
      {
        DeepNow(a, failures, m, known, todo, [], d, |a.paths[x]|);
        KnownLinks(a, failures, m, known, |a.paths[x]|);
      }
    }

    lemma TablesFit(a: Tables)
      requires TablesOk(a)
      ensures 256 * |a.paths| <= |a.g| && a.paths != []
    {
    }

    lemma RootEdge(a: Tables, r: nat, c: nat)
      requires TablesOk(a) && r < |a.paths| && c < 256
      ensures -1 <= a.g[r * 256 + c] < |a.paths|
      ensures r > 0 && a.g[r * 256 + c] != -1 ==> a.g[r * 256 + c] > 0 && 1 <= c < 128
    {
      assert EdgeOk(a.paths, a.g, r, c, true);
    }

    /** The tables for the words there are now. */
    method Prepare()
      requires alphabet.Length == 256 && Roomy(list)
      modifies this`matches, this`failures, this`gotos, this`paths, this`words
      ensures Valid() && matches != null && words == Folded(list) && 256 * |paths| <= 0x8000_0000
      ensures fresh(matches) && fresh(failures) && fresh(gotos)
    {
      hide TotalSize, Prefixes;
      var msize := (1 + TotalSize(list, |list|)) % WORD32;
      var m, f, g := new set<nat>[msize](_ => {}), new int[msize](_ => -1), new int[256 * msize % WORD32](_ => -1);
      paths := BuildTrie(m, g);
      words := Folded(list);
      ghost var before := g[..];
      CloseRoot(g);
      Close(paths, before, g[..]);
      assert words[..|list|] == words;
      TrieTables(Tables(words, paths, g[..]), before, m[..]);
      BuildFailures(m, f, g, Tables(words, paths, g[..]));
      matches, failures, gotos := m, f, g;
    }

    lemma TrieTables(a: Tables, g: seq<int>, m: seq<set<nat>>)
      requires TrieOf(a.words, |a.words|, a.paths, g, m) && Trie(a.paths, a.g, true)
      ensures TablesOk(a) && |a.paths| <= |m| && forall t: nat :: t < |a.paths| ==> EndsAt(a.words, a.paths, m, t)
    {
      assert a.words[..|a.words|] == a.words;
    }

    /** What a counter is to be after the first n characters. */
    ghost function Want(j: nat, text: seq<Ch>, n: nat): nat
      reads this`list, this`words, alphabet
      requires j < |list| && alphabet.Length == 256
    {
      if j < |words| && list[j] != [] then Count(Fold(list[j]), Fold(text), text, Delims(), n) else 0
    }

    /** The words that end at the i-th character. */
    method CountEnds(text: seq<Ch>, i: nat, state: nat)
      requires Valid() && matches != null && i < |text| && |counters| == |list|
      requires Longest(paths, Fold(text)[..i + 1], state)
      requires forall j: nat :: j < |list| ==> counters[j] == Want(j, text, i)
      requires count == Sum(counters)
      modifies this`count, this`counters
      ensures |counters| == |list| && (forall j: nat :: j < |list| ==> counters[j] == Want(j, text, i + 1)) && count == Sum(counters)
    {
      hide TablesOk, Want, Fold, Folded, Sum, Lower;
      var j := 0;
      while j < |list|
        invariant 0 <= j <= |list| == |counters| && count == Sum(counters)
        invariant forall q: nat :: q < |list| ==> counters[q] == Want(q, text, if q < j then i + 1 else i)
      {
        Ends(text, i, state, j);
        if j in matches[state] && |list[j]| > 0 {
          var pos := i - |list[j]| + 1;
          if (pos == 0 || !alphabet[text[pos - 1]]) && (i + 1 == |text| || !alphabet[text[i + 1]])
             && Fold(text[pos..pos + |list[j]|]) == Fold(list[j]) {
            SumStep(counters, j);
            count := count + 1;
            counters := counters[j := counters[j] + 1];
          }
        }
        j := j + 1;
      }
    }

    /** A word is counted here exactly if it ends here and stands alone. */
    lemma Ends(text: seq<Ch>, i: nat, state: nat, j: nat)
      requires Valid() && matches != null && i < |text| && j < |list|
      requires Longest(paths, Fold(text)[..i + 1], state)
      ensures state < matches.Length
      ensures j in matches[state] && |list[j]| > 0 ==> |list[j]| <= i + 1
      ensures var pos := i - |list[j]| + 1;
              Want(j, text, i + 1) == Want(j, text, i)
                + if j in matches[state] && |list[j]| > 0 && (pos == 0 || !alphabet[text[pos - 1]])
                     && (i + 1 == |text| || !alphabet[text[i + 1]]) && Fold(text[pos..pos + |list[j]|]) == Fold(list[j])
                  then 1 else 0
    {
      hide Fold, Longest, Trie, FailOk, EndsAt;
      LongestIsSuffix(paths, Fold(text)[..i + 1], state);
      assert MatchesOk(words, paths, matches[..], state);
      if j < |words| && list[j] != [] {
        assert words[j] == Fold(list[j]) && words[j] in paths;
        StateMatches(Tables(words, paths, gotos[..]), matches[..], state, Fold(text)[..i + 1], j);
        hide Ready, TablesOk, MatchesOk, Count, Suffix;
        CountHere(list[j], text, Delims(), i);
      }
    }

    /** One more word. The tables, once made, do not know of it. */
    method Add(word: Str)
      requires Valid()
      modifies this`list
      ensures Valid() && list == old(list) + [word]
    {
      assert Folded(list + [word])[..|words|] == Folded(list)[..|words|];
      list := list + [word];
    }

    method Reset()
      requires Valid()
      modifies this`list, this`count, this`counters, this`matches, this`failures, this`gotos, this`words
      ensures Valid() && list == [] && counters == [] && matches == null && count == 0
    {
      matches, failures, gotos := null, null, null;
      list, counters, count, words := [], [], 0, [];
    }

    /** The symbols become delimiters, or cease to be. */
    method SetAlphabet(symbols: seq<Ch>, delimiter: bool)
      requires Valid()
      modifies alphabet
      ensures Valid() && Delims() == if delimiter then old(Delims()) + (set c | c in symbols) else old(Delims()) - (set c | c in symbols)
    {
      var i := 0;
      while i < |symbols|
        invariant 0 <= i <= |symbols|
        invariant forall c: nat :: c < 256 ==> alphabet[c] == if c in symbols[..i] then !delimiter else old(alphabet[c])
      {
        alphabet[symbols[i]] := !delimiter;
        i := i + 1;
      }
      assert symbols[..|symbols|] == symbols;
    }

    lemma StartState(text: seq<Ch>)
      requires Valid() && matches != null
      ensures Longest(paths, Fold(text)[..0], 0)
    {
    }

    /** All failure links are there to be followed. */
    lemma Links(text: seq<Ch>, i: nat)
      requires Valid() && matches != null && i < |text|
      ensures failures != null && gotos != null && TablesOk(Tables(words, paths, gotos[..]))
      ensures forall q: nat :: 1 <= q < |paths| ==> FailOk(paths, failures[..], q)
      ensures Fold(text)[..i + 1] == Fold(text)[..i] + [Lower(text[i])]
    {
    }

    /** Counts the places of every word in the text. Words added since the tables were made are
        not counted. */
    method Search(text: seq<Ch>) returns (total: nat)
      requires Valid() && |list| <= 32 && (matches == null ==> Roomy(list))
      modifies this`count, this`counters, this`matches, this`failures, this`gotos, this`paths, this`words
      ensures Valid() && total == count == Sum(counters) && |counters| == |list|
      ensures var known := if old(matches) == null then |list| else |old(words)|;
              forall j: nat :: j < |list| ==>
                counters[j] == if j < known && list[j] != [] then Occurrences(list[j], text, Delims()) else 0
    {
      hide Occurrences, Count, Fold, Ready, Roomy, Delims;
      count, counters := 0, seq(|list|, _ => 0);
      SumZero(|list|);
      FirstAndLast(list, text, Delims());
      if |text| == 0 || |list| == 0 { return count; }
      if matches == null { Prepare(); }
      Scan(text);
      total := count;
    }

    /** The pass over the text. */
    method Scan(text: seq<Ch>)
      requires alphabet.Length == 256 && Valid() && matches != null && |counters| == |list| && count == Sum(counters)
      requires forall j: nat :: j < |list| ==> counters[j] == Want(j, text, 0)
      modifies this`count, this`counters
      ensures |counters| == |list| && count == Sum(counters) && forall j: nat :: j < |list| ==> counters[j] == Want(j, text, |text|)
    {
      hide Longest, Want, Fold, Valid, TablesOk, FailOk, Folded, Sum;
      StartState(text);
      var state, i := 0, 0;
      while i < |text|
        invariant 0 <= i <= |text| && Longest(paths, Fold(text)[..i], state)
        invariant |counters| == |list| && count == Sum(counters) && forall j: nat :: j < |list| ==> counters[j] == Want(j, text, i)
      {
        Links(text, i);
        LongestIsSuffix(paths, Fold(text)[..i], state);
        state := Follow(failures, gotos, state, Lower(text[i]), Tables(words, paths, gotos[..]), Fold(text)[..i]);
        CountEnds(text, i, state);
        i := i + 1;
      }
    }
  }

  /** What the counts are before the text, and after it. */
  lemma FirstAndLast(list: seq<Str>, text: seq<Ch>, delims: set<Ch>)
    ensures forall j: nat :: j < |list| && list[j] != [] ==> Count(Fold(list[j]), Fold(text), text, delims, 0) == 0
    ensures forall j: nat :: j < |list| ==> Count(Fold(list[j]), Fold(text), text, delims, |text|) == Occurrences(list[j], text, delims)
  {
    hide Occurrences, Count;
    forall j: nat | j < |list|
      ensures list[j] != [] ==> Count(Fold(list[j]), Fold(text), text, delims, 0) == 0
      ensures Count(Fold(list[j]), Fold(text), text, delims, |text|) == Occurrences(list[j], text, delims)
    {
      if list[j] != [] { CountNone(Fold(list[j]), Fold(text), text, delims, 0); }
      CountIsOccurrences(list[j], text, delims);
    }
  }

  lemma CountHere(word: Str, text: seq<Ch>, delims: set<Ch>, i: nat)
    requires word != [] && i < |text|
    ensures Suffix(Fold(word), Fold(text)[..i + 1]) ==> |word| <= i + 1
    ensures var hit := Suffix(Fold(word), Fold(text)[..i + 1]);
            var pos := i - |word| + 1;
            Count(Fold(word), Fold(text), text, delims, i + 1) == Count(Fold(word), Fold(text), text, delims, i)
              + if hit && (pos == 0 || text[pos - 1] in delims) && (i + 1 == |text| || text[i + 1] in delims)
                   && Fold(text[pos..pos + |word|]) == Fold(word)
                then 1 else 0
  {
    hide Count, Fold;
    var w, t := Fold(word), Fold(text);
    CountStep(w, t, text, delims, i);
    if |w| <= i + 1 {
      var pos := i + 1 - |w|;
      assert t[..i + 1][pos..] == t[pos..pos + |w|];
      assert Fold(text[pos..pos + |w|]) == t[pos..pos + |w|];
    }
  }
}
