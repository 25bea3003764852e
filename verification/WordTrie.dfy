/** Tries in a table of edges, and the longest suffix of a string that is a path in one. */
module WordTrie {
  import opened Ascii

  type Str = seq<Ch>

  predicate Suffix(a: Str, b: Str) {
    |a| <= |b| && b[|b| - |a|..] == a
  }

  /** The edge of node r for c: none, a child, or at the root of a closed trie the root itself. */
  ghost predicate EdgeOk(paths: seq<Str>, g: seq<int>, r: nat, c: nat, closed: bool)
    requires r < |paths| && c < 256 && 256 * |paths| <= |g|
  {
    var t := g[r * 256 + c];
    || (t == -1 && (r > 0 || !closed))
    || (t == 0 && r == 0 && closed)
    || (1 <= t < |paths| && 1 <= c < 128 && paths[t] == paths[r] + [c])
  }

  /** Node t is the child of a node. */
  ghost predicate HasParent(paths: seq<Str>, g: seq<int>, t: nat)
    requires t < |paths| && 256 * |paths| <= |g|
  {
    paths[t] != [] && exists r: nat :: ChildOf(paths, g, t, r)
  }

  ghost predicate ChildOf(paths: seq<Str>, g: seq<int>, t: nat, r: nat)
    requires t < |paths| && 256 * |paths| <= |g| && paths[t] != []
  {
    var n := |paths[t]| - 1;
    r < |paths| && paths[r] == paths[t][..n] && g[r * 256 + paths[t][n]] == t
  }

  /** paths are the strings of the nodes of the trie whose edges are g; node 0 is the root. */
  ghost predicate Trie(paths: seq<Str>, g: seq<int>, closed: bool) {
    && paths != [] && paths[0] == [] && 256 * |paths| <= |g|
    && (forall q, r :: 0 <= q < r < |paths| ==> paths[q] != paths[r])
    && (forall r: nat, c: nat :: r < |paths| && c < 256 ==> EdgeOk(paths, g, r, c, closed))
    && (forall t: nat :: 1 <= t < |paths| ==> HasParent(paths, g, t))
  }

  /** A node has a child for c exactly when its path and c are a path. */
  lemma Child(paths: seq<Str>, g: seq<int>, closed: bool, r: nat, c: Ch)
    requires Trie(paths, g, closed) && r < |paths|
    ensures paths[r] + [c] in paths <==> g[r * 256 + c] > 0
    ensures g[r * 256 + c] > 0 ==> g[r * 256 + c] < |paths| && paths[g[r * 256 + c]] == paths[r] + [c]
  {
    assert EdgeOk(paths, g, r, c, closed);
    if t :| 0 <= t < |paths| && paths[t] == paths[r] + [c] {
      assert HasParent(paths, g, t);
      var p: nat :| ChildOf(paths, g, t, p);
      assert paths[t][..|paths[t]| - 1] == paths[r];
      assert p == r;
    }
  }

  /** Leaving out the last character of a path gives a path. */
  lemma Shorter(paths: seq<Str>, g: seq<int>, closed: bool, s: Str)
    requires Trie(paths, g, closed) && s in paths && s != []
    ensures s[..|s| - 1] in paths
  {
    var t :| 0 <= t < |paths| && paths[t] == s;
    assert HasParent(paths, g, t);
    var p: nat :| ChildOf(paths, g, t, p);
  }

  /** A new node below r. */
  lemma Grow(paths: seq<Str>, g: seq<int>, r: nat, c: Ch)
    requires Trie(paths, g, false) && r < |paths| && g[r * 256 + c] == -1 && 256 * (|paths| + 1) <= |g|
    requires forall k :: 256 * |paths| <= k < |g| ==> g[k] == -1
    ensures Trie(paths + [paths[r] + [c]], g[r * 256 + c := |paths|], false)
  {
    var paths', g' := paths + [paths[r] + [c]], g[r * 256 + c := |paths|];
    Child(paths, g, false, r, c);
    forall q: nat, d: nat | q < |paths'| && d < 256 ensures EdgeOk(paths', g', q, d, false) {
      if q < |paths| { assert EdgeOk(paths, g, q, d, false); }
    }
    forall t: nat | 1 <= t < |paths'| ensures HasParent(paths', g', t) {
      if t < |paths| {
        assert HasParent(paths, g, t);
        var p: nat :| ChildOf(paths, g, t, p);
        assert ChildOf(paths', g', t, p);
      } else {
        assert paths'[t][..|paths'[t]| - 1] == paths[r];
        assert ChildOf(paths', g', t, r);
      }
    }
  }

  /** The root led back to itself where it has no child. */
  lemma Close(paths: seq<Str>, g: seq<int>, g': seq<int>)
    requires Trie(paths, g, false) && |g'| == |g|
    requires forall k :: 0 <= k < |g| ==> g'[k] == if k < 256 && g[k] == -1 then 0 else g[k]
    ensures Trie(paths, g', true)
  {
    forall q: nat, d: nat | q < |paths| && d < 256 ensures EdgeOk(paths, g', q, d, true) {
      assert EdgeOk(paths, g, q, d, false);
    }
    forall t: nat | 1 <= t < |paths| ensures HasParent(paths, g', t) {
      assert HasParent(paths, g, t);
      var p: nat :| ChildOf(paths, g, t, p);
      assert ChildOf(paths, g', t, p);
    }
  }

  // -------------------------------------------------------- longest suffix

  /** The path of f is the longest suffix of b that is a path. */
  ghost predicate Longest(paths: seq<Str>, b: Str, f: int) {
    && 0 <= f < |paths| && Suffix(paths[f], b)
    && forall q :: 0 <= q < |paths| && Suffix(paths[q], b) ==> |paths[q]| <= |paths[f]|
  }

  /** The failure link of node t: its longest proper suffix that is a path. */
  ghost predicate FailOk(paths: seq<Str>, failures: seq<int>, t: nat) {
    1 <= t < |paths| && t < |failures| && paths[t] != [] && Longest(paths, paths[t][1..], failures[t])
  }

  lemma FailLink(paths: seq<Str>, failures: seq<int>, t: nat)
    requires FailOk(paths, failures, t)
    ensures Longest(paths, paths[t][1..], failures[t]) && 0 <= failures[t] < |paths| && |paths[failures[t]]| < |paths[t]|
  {
  }

  /** The suffixes of b that c extends to a path are no longer than the path of f. */
  ghost predicate Candidates(paths: seq<Str>, b: Str, c: Ch, f: nat)
    requires f < |paths|
  {
    forall q :: 0 <= q < |paths| && Suffix(paths[q], b) && paths[q] + [c] in paths ==> |paths[q]| <= |paths[f]|
  }

  lemma SuffixOfSuffix(a: Str, f: Str, b: Str)
    requires Suffix(a, b) && Suffix(f, b) && |a| < |f|
    ensures Suffix(a, f[1..])
  {
  }

  lemma SuffixTrans(a: Str, f: Str, b: Str)
    requires Suffix(a, f) && Suffix(f, b)
    ensures Suffix(a, b)
  {
  }

  lemma SuffixTail(a: Str, f: Str)
    requires f != [] && Suffix(a, f[1..])
    ensures Suffix(a, f) && |a| < |f|
  {
  }

  lemma SuffixSnoc(a: Str, b: Str, c: Ch)
    ensures Suffix(a + [c], b + [c]) <==> Suffix(a, b)
    ensures Suffix(a, b + [c]) && a != [] ==> a == a[..|a| - 1] + [c] && Suffix(a[..|a| - 1], b)
  {
    if |a| <= |b| {
      assert (b + [c])[|b| - |a|..] == b[|b| - |a|..] + [c];
      if Suffix(a + [c], b + [c]) { assert (a + [c])[..|a|] == (b[|b| - |a|..] + [c])[..|a|]; }
    }
    if Suffix(a, b + [c]) && a != [] {
      var n := |a| - 1;
      assert (b + [c])[|b| + 1 - |a|..] == b[|b| - n..] + [c];
      assert a[..n] == b[|b| - n..];
    }
  }

  /** c has no edge at f: on to the failure link of f. */
  lemma FallBack(paths: seq<Str>, g: seq<int>, failures: seq<int>, b: Str, c: Ch, f: nat)
    requires Trie(paths, g, true) && f < |paths| && Suffix(paths[f], b) && Candidates(paths, b, c, f)
    requires g[f * 256 + c] == -1 && FailOk(paths, failures, f)
    ensures 0 <= failures[f] < |paths| && |paths[failures[f]]| < |paths[f]|
    ensures Suffix(paths[failures[f]], b) && Candidates(paths, b, c, failures[f])
  {
    var f' := failures[f];
    SuffixTail(paths[f'], paths[f]);
    SuffixTrans(paths[f'], paths[f], b);
    Child(paths, g, true, f, c);
    forall q | 0 <= q < |paths| && Suffix(paths[q], b) && paths[q] + [c] in paths ensures |paths[q]| <= |paths[f']| {
      if |paths[q]| < |paths[f]| {
        SuffixOfSuffix(paths[q], paths[f], b);
      }
    }
  }

  /** c has an edge at f: it leads to the longest suffix of b and c. */
  lemma Advance(paths: seq<Str>, g: seq<int>, b: Str, c: Ch, f: nat)
    requires Trie(paths, g, true) && f < |paths| && Suffix(paths[f], b) && Candidates(paths, b, c, f)
    requires g[f * 256 + c] != -1
    ensures Longest(paths, b + [c], g[f * 256 + c])
  {
    assert EdgeOk(paths, g, f, c, true);
    Child(paths, g, true, f, c);
    hide Trie;
    var t := g[f * 256 + c];
    SuffixSnoc(paths[f], b, c);
    assert Suffix([], b + [c]);
    hide Suffix, Candidates;
    forall q | 0 <= q < |paths| && Suffix(paths[q], b + [c]) ensures |paths[q]| <= |paths[t]| {
      if paths[q] != [] { var p := Stem(paths, g, b, c, f, q); }
    }
  }

  /** A path that b and c end with, without c. */
  lemma Stem(paths: seq<Str>, g: seq<int>, b: Str, c: Ch, f: nat, q: nat) returns (p: nat)
    requires Trie(paths, g, true) && f < |paths| && Candidates(paths, b, c, f)
    requires q < |paths| && paths[q] != [] && Suffix(paths[q], b + [c])
    ensures p < |paths| && |paths[p]| <= |paths[f]| && paths[q] == paths[p] + [c]
  {
    hide Trie, Suffix;
    SuffixSnoc(paths[q], b, c);
    Shorter(paths, g, true, paths[q]);
    p :| 0 <= p < |paths| && paths[p] == paths[q][..|paths[q]| - 1];
    assert paths[p] + [c] in paths;
  }

  lemma LongestIsSuffix(paths: seq<Str>, b: Str, f: int)
    requires Longest(paths, b, f)
    ensures 0 <= f < |paths| && Suffix(paths[f], b)
  {
  }

  lemma RootHasEdges(paths: seq<Str>, g: seq<int>, f: nat, c: nat)
    requires Trie(paths, g, true) && f < |paths| && c < 256 && g[f * 256 + c] == -1
    ensures f > 0
  {
    assert EdgeOk(paths, g, f, c, true);
  }

  lemma AllCandidates(paths: seq<Str>, b: Str, c: Ch, f: nat)
    requires Longest(paths, b, f)
    ensures Candidates(paths, b, c, f)
  {
  }

  // -------------------------------------------------------------- matches

  /** The words whose whole is the path of node t. */
  ghost predicate EndsAt(words: seq<Str>, paths: seq<Str>, m: seq<set<nat>>, t: nat) {
    t < |paths| && t < |m| && forall i: nat :: i in m[t] <==> (i < |words| && words[i] == paths[t])
  }

  /** The words, other than empty ones, that are suffixes of the path of node t. */
  ghost predicate MatchesOk(words: seq<Str>, paths: seq<Str>, m: seq<set<nat>>, t: nat) {
    && t < |paths| && t < |m|
    && (forall i: nat :: i in m[t] ==> i < |words|)
    && forall i: nat :: i < |words| && words[i] != [] ==> (i in m[t] <==> Suffix(words[i], paths[t]))
  }

  /** At the root, or one edge from it, no proper suffix matters. */
  lemma MatchesShallow(words: seq<Str>, paths: seq<Str>, m: seq<set<nat>>, t: nat)
    requires EndsAt(words, paths, m, t) && |paths[t]| <= 1
    ensures MatchesOk(words, paths, m, t)
  {
  }

  /** The words that end at t and those of its failure link are all there are. */
  lemma MatchesMerge(words: seq<Str>, paths: seq<Str>, m: seq<set<nat>>, t: nat, f: nat)
    requires EndsAt(words, paths, m, t) && MatchesOk(words, paths, m, f) && paths[t] != [] && Longest(paths, paths[t][1..], f)
    requires forall i :: 0 <= i < |words| ==> words[i] in paths
    ensures MatchesOk(words, paths, m[t := m[t] + m[f]], t)
  {
  }

  /** In the state that stands for a text, the words that match are those the text ends with. */
  lemma StateMatches(a: Tables, m: seq<set<nat>>, state: nat, t: Str, j: nat)
    requires MatchesOk(a.words, a.paths, m, state) && Longest(a.paths, t, state) && j < |a.words| && a.words[j] != []
    requires a.words[j] in a.paths
    ensures j in m[state] <==> Suffix(a.words[j], t)
  {
  }

  // ----------------------------------------------- the breadth-first search

  /** All about the words of a trie that its tables are to say. */
  datatype Tables = Tables(words: seq<Str>, paths: seq<Str>, g: seq<int>)

  ghost predicate TablesOk(a: Tables) {
    && Trie(a.paths, a.g, true) && a.paths != [] && a.paths[0] == [] && 256 * |a.paths| <= |a.g|
    && forall i :: 0 <= i < |a.words| ==> a.words[i] in a.paths
  }

  /** The child of q for d has been queued exactly if q is done, or r is at work on it beyond d. */
  ghost predicate OpenOk(a: Tables, known: set<nat>, todo: set<nat>, r: int, c: nat, q: nat, d: nat)
    requires q < |a.paths| && d < 256 && 256 * |a.paths| <= |a.g|
  {
    var t := a.g[q * 256 + d];
    t > 0 ==> (t in known <==> (q !in todo && q != r) || (q == r && d < c))
  }

  ghost predicate Explored(a: Tables, known: set<nat>, todo: set<nat>, r: int, c: nat) {
    && 256 * |a.paths| <= |a.g|
    && forall q: nat, e: nat :: q < |a.paths| && e < 256 ==> OpenOk(a, known, todo, r, c, q, e)
  }

  /** What is known of the nodes that were queued, and of the others. */
  ghost predicate KnownOk(a: Tables, failures: seq<int>, m: seq<set<nat>>, known: set<nat>) {
    && |a.paths| <= |failures| && |a.paths| <= |m|
    && (forall x :: x in known ==> 1 <= x < |a.paths| && FailOk(a.paths, failures, x) && MatchesOk(a.words, a.paths, m, x))
    && (forall x: nat :: x < |a.paths| && x !in known ==> EndsAt(a.words, a.paths, m, x))
  }

  /** The queue holds the nodes that are known and still to do, each once. */
  ghost predicate Queued(a: Tables, known: set<nat>, todo: set<nat>, queue: seq<int>) {
    && 0 !in todo && (forall x :: x in todo ==> x < |a.paths|)
    && (forall x: nat :: 1 <= x < |a.paths| && x !in todo ==> x in known)
    && (forall i :: 0 <= i < |queue| ==> 0 <= queue[i] < |a.paths| && queue[i] in known && queue[i] in todo)
    && (forall x: nat :: x in known && x in todo ==> x in queue)
    && (forall i, j :: 0 <= i < j < |queue| ==> queue[i] != queue[j])
  }

  /** The queued nodes are in the order of their depths, which are d or d + 1. */
  ghost predicate Level(a: Tables, queue: seq<int>, d: nat) {
    && (forall i :: 0 <= i < |queue| ==> 0 <= queue[i] < |a.paths| && d <= |a.paths[queue[i]]| <= d + 1)
    && (forall i, j :: 0 <= i < j < |queue| ==> |a.paths[queue[i]]| <= |a.paths[queue[j]]|)
  }

  /** The search is at the edge for c of node r, whose depth is d; r is -1 between two nodes.
      known are the nodes that were ever queued, todo those whose children were not. */
  ghost predicate Frontier(a: Tables, failures: seq<int>, m: seq<set<nat>>, known: set<nat>, todo: set<nat>, queue: seq<int>,
                           d: nat, r: int, c: nat)
  {
    && TablesOk(a) && Explored(a, known, todo, r, c) && KnownOk(a, failures, m, known)
    && Queued(a, known, todo, queue) && Level(a, queue, d)
  }

  /** No child here. */
  lemma NoChild(a: Tables, failures: seq<int>, m: seq<set<nat>>, known: set<nat>, todo: set<nat>, queue: seq<int>, d: nat, r: nat, c: nat)
    requires Frontier(a, failures, m, known, todo, queue, d, r, c) && r < |a.paths| && c < 256 && a.g[r * 256 + c] <= 0
    ensures Frontier(a, failures, m, known, todo, queue, d, r, c + 1)
  {
    hide TablesOk, KnownOk, Queued, Level;
    var c' := c + 1;
    forall q: nat, e: nat | q < |a.paths| && e < 256 ensures OpenOk(a, known, todo, r, c', q, e) {
      assert OpenOk(a, known, todo, r, c, q, e);
    }
  }

  /** All edges of a node done. */
  lemma NodeDone(a: Tables, failures: seq<int>, m: seq<set<nat>>, known: set<nat>, todo: set<nat>, queue: seq<int>, d: nat, r: nat)
    requires Frontier(a, failures, m, known, todo, queue, d, r, 256) && r !in todo
    ensures Frontier(a, failures, m, known, todo, queue, d, -1, 0)
  {
    hide TablesOk, KnownOk, Queued, Level;
    forall q: nat, e: nat | q < |a.paths| && e < 256 ensures OpenOk(a, known, todo, -1, 0, q, e) {
      assert OpenOk(a, known, todo, r, 256, q, e);
    }
  }

  /** The next node is taken from the queue. */
  lemma NodeTaken(a: Tables, failures: seq<int>, m: seq<set<nat>>, known: set<nat>, todo: set<nat>, queue: seq<int>, d: nat)
    requires Frontier(a, failures, m, known, todo, queue, d, -1, 0) && queue != []
    ensures 0 < queue[0] < |a.paths| && queue[0] in todo && queue[0] in known
    ensures Frontier(a, failures, m, known, todo - {queue[0]}, queue[1..], |a.paths[queue[0]]|, queue[0], 0)
  {
    hide TablesOk, KnownOk;
    var r := queue[0];
    assert Queued(a, known, todo - {r}, queue[1..]) by { hide Level, Explored; }
    assert Level(a, queue[1..], |a.paths[r]|) by { hide Explored; }
    var todo' := todo - {r};
    forall q: nat, e: nat | q < |a.paths| && e < 256 ensures OpenOk(a, known, todo', r, 0, q, e) {
      assert OpenOk(a, known, todo, -1, 0, q, e);
    }
  }

  /** A child is queued, with its failure link and its matches. */
  lemma ChildQueued(a: Tables, failures: seq<int>, m: seq<set<nat>>, known: set<nat>, todo: set<nat>, queue: seq<int>, d: nat, r: nat, c: nat,
                    t: nat, f: int, ms: set<nat>)
    requires Frontier(a, failures, m, known, todo, queue, d, r, c) && r < |a.paths| && c < 256 && a.g[r * 256 + c] == t > 0
    requires d == |a.paths[r]| && t < |a.paths|
    requires FailOk(a.paths, failures[t := f], t) && MatchesOk(a.words, a.paths, m[t := ms], t)
    ensures t !in known && Frontier(a, failures[t := f], m[t := ms], known + {t}, todo, queue + [t], d, r, c + 1)
  {
    hide TablesOk, Explored, KnownOk, FailOk, MatchesOk, Queued, Level;
    NewChild(a, known, todo, r, c, t);
    Children(a, known, todo, r, c, t);
    KnownMore(a, failures, m, known, t, f, ms);
    QueuedMore(a, known, todo, queue, t);
    LevelMore(a, queue, d, t);
  }

  lemma LevelMore(a: Tables, queue: seq<int>, d: nat, t: nat)
    requires Level(a, queue, d) && t < |a.paths| && |a.paths[t]| == d + 1
    ensures Level(a, queue + [t], d)
  {
  }

  lemma NewChild(a: Tables, known: set<nat>, todo: set<nat>, r: nat, c: nat, t: nat)
    requires TablesOk(a) && Explored(a, known, todo, r, c) && r < |a.paths| && c < 256 && a.g[r * 256 + c] == t > 0
    ensures t < |a.paths| && t !in known && |a.paths[t]| == |a.paths[r]| + 1
  {
    assert OpenOk(a, known, todo, r, c, r, c);
    assert EdgeOk(a.paths, a.g, r, c, true);
  }

  lemma QueuedMore(a: Tables, known: set<nat>, todo: set<nat>, queue: seq<int>, t: nat)
    requires Queued(a, known, todo, queue) && 1 <= t < |a.paths| && t !in known
    ensures Queued(a, known + {t}, todo, queue + [t])
  {
  }

  lemma KnownMore(a: Tables, failures: seq<int>, m: seq<set<nat>>, known: set<nat>, t: nat, f: int, ms: set<nat>)
    requires KnownOk(a, failures, m, known) && 1 <= t < |a.paths| && t !in known
    requires FailOk(a.paths, failures[t := f], t) && MatchesOk(a.words, a.paths, m[t := ms], t)
    ensures KnownOk(a, failures[t := f], m[t := ms], known + {t})
  {
  }

  lemma Children(a: Tables, known: set<nat>, todo: set<nat>, r: nat, c: nat, t: nat)
    requires TablesOk(a) && Explored(a, known, todo, r, c) && r < |a.paths| && c < 256 && a.g[r * 256 + c] == t > 0
    ensures Explored(a, known + {t}, todo, r, c + 1)
  {
    var c', known' := c + 1, known + {t};
    assert EdgeOk(a.paths, a.g, r, c, true);
    forall q: nat, e: nat | q < |a.paths| && e < 256 ensures OpenOk(a, known', todo, r, c', q, e) {
      assert OpenOk(a, known, todo, r, c, q, e);
      assert EdgeOk(a.paths, a.g, q, e, true);
      if a.g[q * 256 + e] == t {
        assert (a.paths[q] + [e])[..|a.paths[q]|] == a.paths[q];
        assert (a.paths[r] + [c])[..|a.paths[r]|] == a.paths[r];
        assert q == r && e == c;
      }
    }
  }

  /** All nodes down to the depth of the queue have been queued. */
  lemma {:induction false} AllKnown(a: Tables, known: set<nat>, todo: set<nat>, queue: seq<int>, limit: nat, x: nat)
    requires TablesOk(a) && Explored(a, known, todo, -1, 0) && Queued(a, known, todo, queue)
    requires 1 <= x < |a.paths| && |a.paths[x]| <= limit
    requires forall i :: 0 <= i < |queue| ==> 0 <= queue[i] < |a.paths| && |a.paths[queue[i]]| >= limit
    ensures x in known
    decreases |a.paths[x]|
  {
    assert HasParent(a.paths, a.g, x);
    var p: nat :| ChildOf(a.paths, a.g, x, p);
    var e := a.paths[x][|a.paths[x]| - 1];
    assert OpenOk(a, known, todo, -1, 0, p, e);
    if p in todo { AllKnown(a, known, todo, queue, limit, p); }
  }

  /** All nodes but the root. */
  function NodesBelow(n: nat): (s: set<nat>)
    ensures forall t: nat :: t in s <==> 1 <= t < n
  {
    if n <= 1 then {} else NodesBelow(n - 1) + {n - 1}
  }

  /** Before the first node is queued. */
  lemma SearchStart(a: Tables, failures: seq<int>, m: seq<set<nat>>, todo: set<nat>)
    requires TablesOk(a) && |a.paths| <= |failures| && |a.paths| <= |m| && forall t: nat :: t < |a.paths| ==> EndsAt(a.words, a.paths, m, t)
    requires todo == NodesBelow(|a.paths|)
    ensures Frontier(a, failures, m, {}, todo, [], 0, 0, 0)
  {
  }

  /** The children of the root fail to the root. */
  lemma RootChild(a: Tables, failures: seq<int>, m: seq<set<nat>>, known: set<nat>, todo: set<nat>, queue: seq<int>, c: nat, t: nat)
    requires Frontier(a, failures, m, known, todo, queue, 0, 0, c) && c < 256 && a.g[c] == t > 0
    ensures t < |a.paths| && Frontier(a, failures[t := 0], m, known + {t}, todo, queue + [t], 0, 0, c + 1)
  {
    NewChild(a, known, todo, 0, c, t);
    assert EndsAt(a.words, a.paths, m, t);
    MatchesShallow(a.words, a.paths, m, t);
    assert Suffix([], a.paths[t][1..]);
    assert m[t := m[t]] == m;
    hide Frontier, TablesOk, MatchesOk, EndsAt;
    ChildQueued(a, failures, m, known, todo, queue, 0, 0, c, t, 0, m[t]);
  }

  /** The child of r for c fails to f, and has the matches of f. */
  lemma DeepChild(a: Tables, failures: seq<int>, m: seq<set<nat>>, known: set<nat>, todo: set<nat>, queue: seq<int>, d: nat, r: nat, c: nat,
                  t: nat, f: nat)
    requires Frontier(a, failures, m, known, todo, queue, d, r, c) && 1 <= r < |a.paths| && 1 <= c < 256 && a.g[r * 256 + c] == t > 0
    requires d == |a.paths[r]| && c < 128 && Longest(a.paths, a.paths[r][1..] + [c], f)
    requires MatchesOk(a.words, a.paths, m, f)
    ensures t < |a.paths| && Frontier(a, failures[t := f], m[t := m[t] + m[f]], known + {t}, todo, queue + [t], d, r, c + 1)
  {
    NewChild(a, known, todo, r, c, t);
    assert EdgeOk(a.paths, a.g, r, c, true);
    NotRoot(a, r);
    assert a.paths[t][1..] == a.paths[r][1..] + [c];
    assert EndsAt(a.words, a.paths, m, t);
    hide Frontier, MatchesOk, EndsAt, Longest, Suffix;
    MatchesMerge(a.words, a.paths, m, t, f);
    ChildQueued(a, failures, m, known, todo, queue, d, r, c, t, f, m[t] + m[f]);
  }

  lemma NotRoot(a: Tables, r: nat)
    requires TablesOk(a) && 1 <= r < |a.paths|
    ensures a.paths[r] != []
  {
  }

  /** Every node that is no deeper than d has been queued. */
  ghost predicate Deep(a: Tables, known: set<nat>, d: nat) {
    forall x: nat :: 1 <= x < |a.paths| && |a.paths[x]| <= d ==> x in known
  }

  lemma DeepNow(a: Tables, failures: seq<int>, m: seq<set<nat>>, known: set<nat>, todo: set<nat>, queue: seq<int>, d: nat, limit: nat)
    requires Frontier(a, failures, m, known, todo, queue, d, -1, 0)
    requires queue == [] || (0 <= queue[0] < |a.paths| && limit == |a.paths[queue[0]]|)
    ensures Deep(a, known, limit)
  {
    forall x: nat | 1 <= x < |a.paths| && |a.paths[x]| <= limit ensures x in known {
      AllKnown(a, known, todo, queue, limit, x);
    }
  }

  lemma KnownLinks(a: Tables, failures: seq<int>, m: seq<set<nat>>, known: set<nat>, d: nat)
    requires TablesOk(a) && KnownOk(a, failures, m, known) && Deep(a, known, d)
    ensures forall x: nat :: 1 <= x < |a.paths| && |a.paths[x]| <= d ==> FailOk(a.paths, failures, x)
    ensures forall x: nat :: x < |a.paths| && |a.paths[x]| <= d ==> MatchesOk(a.words, a.paths, m, x)
  {
    hide FailOk;
  }

  /** A longest suffix of what follows the first character of a path and c. */
  lemma LongestBound(paths: seq<Str>, p: Str, c: Ch, f: nat)
    requires p != [] && Longest(paths, p[1..] + [c], f)
    ensures f < |paths| && |paths[f]| <= |p|
  {
  }
}
