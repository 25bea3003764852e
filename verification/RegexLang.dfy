/** What patterns mean, independent of how they are compiled and run. */
module RegexLang {
  import opened Ascii
  import opened RegexSyntax

  /** r matches the text s from position i up to position j. */
  ghost predicate Match(r: Re, s: seq<Ch>, i: nat, j: nat)
    decreases r, 0
  {
    i <= j <= |s| &&
    match r
    case Bol => i == j == 0
    case Eol => i == j == |s|
    case Any => j == i + 1
    case OneOf(cs) => j == i + 1 && s[i] in cs
    case NoneOf(cs) => j == i + 1 && s[i] !in cs
    case Lit(cs) => s[i..j] == cs
    case Group(_, alts) => AltsMatch(alts, s, i, j)
    case Star(x) => exists n: nat :: Times(x, n, s, i, j)
    case Plus(x) => exists n: nat :: n >= 1 && Times(x, n, s, i, j)
    case Opt(x) => i == j || Match(x, s, i, j)
  }

  /** The pieces ps match one after the other. */
  ghost predicate SeqMatch(ps: seq<Re>, s: seq<Ch>, i: nat, j: nat)
    decreases ps, 0
  {
    i <= j <= |s| &&
    if ps == [] then i == j
    else exists m: nat :: Match(ps[0], s, i, m) && SeqMatch(ps[1..], s, m, j)
  }

  /** One of the alternatives matches. */
  ghost predicate AltsMatch(alts: seq<Branch>, s: seq<Ch>, i: nat, j: nat)
    decreases alts, 0
  {
    alts != [] && (SeqMatch(alts[0].ps, s, i, j) || AltsMatch(alts[1..], s, i, j))
  }

  /** n matches of x one after the other. */
  ghost predicate Times(x: Re, n: nat, s: seq<Ch>, i: nat, j: nat)
    decreases x, n + 1
  {
    i <= j <= |s| &&
    if n == 0 then i == j
    else exists m: nat :: Match(x, s, i, m) && Times(x, n - 1, s, m, j)
  }

  /** The language of a whole pattern: some alternative matches at i. */
  ghost predicate MatchesAt(alts: seq<Branch>, s: seq<Ch>, i: nat) {
    exists j: nat :: AltsMatch(alts, s, i, j)
  }

  lemma {:induction false} MatchRange(r: Re, s: seq<Ch>, i: nat, j: nat)
    requires Match(r, s, i, j)
    ensures i <= j <= |s|
  {
  }

  lemma {:induction false} AltsMatchRange(alts: seq<Branch>, s: seq<Ch>, i: nat, j: nat)
    requires AltsMatch(alts, s, i, j)
    ensures i <= j <= |s|
    decreases alts
  {
    if !SeqMatch(alts[0].ps, s, i, j) { AltsMatchRange(alts[1..], s, i, j); }
  }

  lemma {:induction false} FirstTime(x: Re, n: nat, s: seq<Ch>, i: nat, j: nat) returns (m: nat)
    requires n >= 1 && Times(x, n, s, i, j)
    ensures Match(x, s, i, m) && Times(x, n - 1, s, m, j)
  {
    m :| Match(x, s, i, m) && Times(x, n - 1, s, m, j);
  }

  lemma StarRounds(x: Re, s: seq<Ch>, i: nat, j: nat) returns (n: nat)
    requires Match(Star(x), s, i, j)
    ensures Times(x, n, s, i, j)
  {
    n :| Times(x, n, s, i, j);
  }

  lemma PlusRounds(x: Re, s: seq<Ch>, i: nat, j: nat) returns (n: nat)
    requires Match(Plus(x), s, i, j)
    ensures n >= 1 && Times(x, n, s, i, j)
  {
    n :| n >= 1 && Times(x, n, s, i, j);
  }

  lemma RoundsMatch(x: Re, n: nat, s: seq<Ch>, i: nat, j: nat)
    requires Times(x, n, s, i, j)
    ensures Match(Star(x), s, i, j) && (n >= 1 ==> Match(Plus(x), s, i, j))
  {
  }

  lemma AnotherRound(x: Re, n: nat, s: seq<Ch>, i: nat, l: nat, j: nat)
    requires Match(x, s, i, l) && Times(x, n, s, l, j)
    ensures Times(x, n + 1, s, i, j)
  {
  }

  // -------------------------------------------------- one round at a time

  ghost predicate Round(x: Re, s: seq<Ch>, i: nat, l: nat, m: nat) {
    Match(x, s, i, l) && Match(Star(x), s, l, m)
  }

  /** x* is nothing, or x and x*. */
  lemma StarOnce(x: Re, s: seq<Ch>, i: nat, m: nat)
    ensures Match(Star(x), s, i, m) <==> (i == m <= |s| || exists l: nat :: Round(x, s, i, l, m))
  {
    if Match(Star(x), s, i, m) {
      var n := StarRounds(x, s, i, m);
      if n > 0 {
        var l := FirstTime(x, n, s, i, m);
        RoundsMatch(x, n - 1, s, l, m);
        assert Round(x, s, i, l, m);
      }
    }
    if i == m <= |s| { RoundsMatch(x, 0, s, i, m); }
    if l: nat :| Round(x, s, i, l, m) { OnceMore(x, s, i, l, m); }
  }

  lemma OnceMore(x: Re, s: seq<Ch>, i: nat, l: nat, m: nat)
    requires Match(x, s, i, l) && Match(Star(x), s, l, m)
    ensures Match(Star(x), s, i, m) && Match(Plus(x), s, i, m)
  {
    var n := StarRounds(x, s, l, m);
    AnotherRound(x, n, s, i, l, m);
    RoundsMatch(x, n + 1, s, i, m);
  }

  /** x+ is x and x*. */
  lemma PlusOnce(x: Re, s: seq<Ch>, i: nat, m: nat)
    ensures Match(Plus(x), s, i, m) <==> exists l: nat :: Round(x, s, i, l, m)
  {
    if Match(Plus(x), s, i, m) {
      var n := PlusRounds(x, s, i, m);
      var l := FirstTime(x, n, s, i, m);
      RoundsMatch(x, n - 1, s, l, m);
      assert Round(x, s, i, l, m);
    }
    if l: nat :| Round(x, s, i, l, m) { OnceMore(x, s, i, l, m); }
  }

  ghost predicate Then(ps: seq<Re>, s: seq<Ch>, i: nat, l: nat, m: nat)
    requires ps != []
  {
    Match(ps[0], s, i, l) && SeqMatch(ps[1..], s, l, m)
  }

  lemma SeqMatchSplit(ps: seq<Re>, s: seq<Ch>, i: nat, m: nat) returns (l: nat)
    requires ps != [] && SeqMatch(ps, s, i, m)
    ensures Match(ps[0], s, i, l) && SeqMatch(ps[1..], s, l, m)
  {
    l :| Match(ps[0], s, i, l) && SeqMatch(ps[1..], s, l, m);
  }

  lemma SeqThen(ps: seq<Re>, s: seq<Ch>, i: nat, m: nat)
    requires ps != []
    ensures SeqMatch(ps, s, i, m) <==> exists l: nat :: Then(ps, s, i, l, m)
  {
    if SeqMatch(ps, s, i, m) {
      var l := SeqMatchSplit(ps, s, i, m);
      assert Then(ps, s, i, l, m);
    }
    if l: nat :| Then(ps, s, i, l, m) { SeqRange(ps[1..], s, l, m); MatchRange(ps[0], s, i, l); }
  }

  lemma SeqRange(ps: seq<Re>, s: seq<Ch>, i: nat, m: nat)
    requires SeqMatch(ps, s, i, m)
    ensures i <= m <= |s|
  {
  }

  /** A tree the grammar can produce: literals are not empty, groups have an alternative and
      a number that fits, and what is repeated by * or + has width. */
  predicate Sound(r: Re)
    decreases r
  {
    match r
    case Lit(cs) => cs != []
    case Group(no, alts) => 1 <= no < NSUBEXP && alts != [] && AltsSound(alts)
    case Star(x) => Width(x) && Sound(x)
    case Plus(x) => Width(x) && Sound(x)
    case Opt(x) => Sound(x)
    case _ => true
  }

  predicate SeqSound(ps: seq<Re>)
    decreases ps
  {
    forall r | r in ps :: Sound(r)
  }

  predicate AltsSound(alts: seq<Branch>)
    decreases alts
  {
    forall b | b in alts :: SeqSound(b.ps)
  }

  // ------------------------------------------------------- the grammar is sound

  lemma {:induction false} AtomSound(p: seq<Ch>, pos: nat, npar: nat)
    requires npar >= 1
    ensures ParseAtom(p, pos, npar).Accept? ==> Sound(ParseAtom(p, pos, npar).value)
    decreases |p| - pos, 0
  {
    if CharAt(p, pos) == LPAREN { GroupSound(p, pos + 1, npar); }
  }

  lemma {:induction false} GroupSound(p: seq<Ch>, pos: nat, npar: nat)
    requires npar >= 1 && pos <= |p|
    ensures ParseGroup(p, pos, npar).Accept? ==> Sound(ParseGroup(p, pos, npar).value)
    decreases |p| - pos, 4
  {
    if npar < NSUBEXP {
      AltsParseSound(p, pos, npar + 1, []);
      var alts := ParseReg(p, pos, npar, true);
      if alts.Accept? { assert alts.value == ParseAlts(p, pos, npar + 1, []).value; }
    }
  }

  lemma {:induction false} PieceSound(p: seq<Ch>, pos: nat, npar: nat)
    requires npar >= 1
    ensures ParsePiece(p, pos, npar).Accept? ==> Sound(ParsePiece(p, pos, npar).value)
    decreases |p| - pos, 1
  {
    AtomSound(p, pos, npar);
  }

  lemma {:induction false} BranchSound(p: seq<Ch>, pos: nat, npar: nat, ps: seq<Re>)
    requires npar >= 1 && SeqSound(ps)
    ensures ParseBranch(p, pos, npar, ps).Accept? ==> SeqSound(ParseBranch(p, pos, npar, ps).value)
    decreases |p| - pos, 2
  {
    if !AtBranchEnd(p, pos) {
      PieceSound(p, pos, npar);
      var piece := ParsePiece(p, pos, npar);
      if piece.Accept? { BranchSound(p, piece.pos, piece.npar, ps + [piece.value]); }
    }
  }

  lemma {:induction false} AltsParseSound(p: seq<Ch>, pos: nat, npar: nat, alts: seq<Branch>)
    requires npar >= 1 && AltsSound(alts)
    ensures var a := ParseAlts(p, pos, npar, alts); a.Accept? ==> a.value != [] && AltsSound(a.value)
    decreases |p| - pos, 3
  {
    BranchSound(p, pos, npar, []);
    var b := ParseBranch(p, pos, npar, []);
    if b.Accept? && CharAt(p, b.pos) == BAR {
      AltsParseSound(p, b.pos + 1, b.npar, alts + [Branch(b.value)]);
    }
  }

  lemma PatternSound(p: seq<Ch>)
    ensures ParsePattern(p).Accept? ==> ParsePattern(p).value != [] && AltsSound(ParsePattern(p).value)
  {
    AltsParseSound(p, 0, 1, []);
  }
}
