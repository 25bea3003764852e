/** Patterns as they are written, character by character, and the trees that they stand for. The
    compiler's grammar accepts exactly these. */
module RegexGrammar {
  import opened Bytes
  import opened Ascii
  import opened RegexSyntax
  import opened RegexLang

  // ------------------------------------------------------ what is written

  /** A member of a bracket expression: a character, or a dash and the end of a range that begins
      with the character before the dash. */
  datatype Member = One(c: Ch) | UpTo(hi: Ch)

  datatype Sign = Once | Starred | Plussed | Maybe

  datatype Atom =
    | Caret
    | Dollar
    | Dot
    | Class(not: bool, first: Ch, members: seq<Member>)
    | Word(cs: seq<Ch>)
    | Quoted(c: Ch)
    | Paren(alts: seq<Alt>)

  datatype Piece = Piece(atom: Atom, sign: Sign)

  datatype Alt = Alt(pieces: seq<Piece>)

  function MembersText(ms: seq<Member>): seq<Ch> {
    if ms == [] then []
    else (match ms[0] case One(c) => [c] case UpTo(hi) => ['-' as int, hi]) + MembersText(ms[1..])
  }

  function AtomText(a: Atom): (t: seq<Ch>)
    decreases a, 0
  {
    match a
    case Caret => ['^' as int]
    case Dollar => ['$' as int]
    case Dot => ['.' as int]
    case Class(not, first, ms) => ['[' as int] + (if not then ['^' as int] else []) + [first] + MembersText(ms) + [']' as int]
    case Word(cs) => cs
    case Quoted(c) => ['\\' as int, c]
    case Paren(alts) => ['(' as int] + AltsText(alts) + [')' as int]
  }

  function SignText(s: Sign): seq<Ch> {
    match s
    case Once => []
    case Starred => ['*' as int]
    case Plussed => ['+' as int]
    case Maybe => ['?' as int]
  }

  function PieceText(x: Piece): seq<Ch>
    decreases x, 0
  {
    AtomText(x.atom) + SignText(x.sign)
  }

  function PiecesText(xs: seq<Piece>): seq<Ch>
    decreases xs, 0
  {
    if xs == [] then [] else PieceText(xs[0]) + PiecesText(xs[1..])
  }

  function AltsText(alts: seq<Alt>): seq<Ch>
    decreases alts, 0
  {
    if alts == [] then []
    else PiecesText(alts[0].pieces) + if |alts| == 1 then [] else ['|' as int] + AltsText(alts[1..])
  }

  /** Characters that stand for themselves. */
  predicate Ordinary(c: int) {
    c !in {'^' as int, '$' as int, '.' as int, '[' as int, '(' as int, ')' as int, '|' as int, '?' as int, '+' as int, '*' as int, '\\' as int}
  }

  predicate IsSign(c: int) {
    c in {'*' as int, '+' as int, '?' as int}
  }

  /** A dash is a character of its own only at the end; a range does not run backwards. A bracket
      or a dash that is first in the brackets is not a member of this list. */
  predicate MembersOk(ms: seq<Member>, before: Ch) {
    ms != [] ==>
      match ms[0]
      case One(c) => c != ']' as int && (c == '-' as int ==> |ms| == 1) && MembersOk(ms[1..], c)
      case UpTo(hi) => hi != ']' as int && before <= hi && MembersOk(ms[1..], hi)
  }

  predicate AtomOk(a: Atom)
    decreases a, 0
  {
    match a
    case Class(not, first, ms) => (first == '^' as int ==> not) && MembersOk(ms, first)
    case Word(cs) => cs != [] && forall i :: 0 <= i < |cs| ==> Ordinary(cs[i])
    case Paren(alts) => AltsOk(alts)
    case _ => true
  }

  /** A sign repeats a single character of a word. */
  predicate PieceOk(x: Piece)
    decreases x, 0
  {
    AtomOk(x.atom) && (x.atom.Word? && !x.sign.Once? ==> |x.atom.cs| == 1)
  }

  /** Ordinary characters in a row are one word, less the last of them if a sign repeats it. */
  predicate Apart(x: Piece, y: Piece) {
    x.atom.Word? && x.sign.Once? && y.atom.Word? ==> !y.sign.Once?
  }

  predicate PiecesOk(xs: seq<Piece>)
    decreases xs, 0
  {
    xs != [] ==> PieceOk(xs[0]) && PiecesOk(xs[1..]) && (|xs| > 1 ==> Apart(xs[0], xs[1]))
  }

  predicate AltsOk(alts: seq<Alt>)
    decreases alts, 0
  {
    alts != [] && PiecesOk(alts[0].pieces) && (|alts| > 1 ==> AltsOk(alts[1..]))
  }

  // ---------------------------------------------------- what it stands for

  /** The characters behind lo up to hi. */
  function Between(lo: Ch, hi: Ch): seq<Ch>
    requires lo <= hi
  {
    seq(hi - lo, k requires 0 <= k < hi - lo => lo + 1 + k)
  }

  /** The characters of a bracket expression behind its first one. */
  function MembersChars(ms: seq<Member>, before: Ch): seq<Ch>
    requires MembersOk(ms, before)
  {
    if ms == [] then []
    else
      match ms[0]
      case One(c) => [c] + MembersChars(ms[1..], c)
      case UpTo(hi) => Between(before, hi) + MembersChars(ms[1..], hi)
  }

  /** How many opening parentheses there are. */
  function AtomParens(a: Atom): nat
    decreases a, 0
  {
    if a.Paren? then 1 + AltsParens(a.alts) else 0
  }

  function PieceParens(x: Piece): nat
    decreases x, 0
  {
    AtomParens(x.atom)
  }

  function PiecesParens(xs: seq<Piece>): nat
    decreases xs, 0
  {
    if xs == [] then 0 else PieceParens(xs[0]) + PiecesParens(xs[1..])
  }

  function AltsParens(alts: seq<Alt>): nat
    decreases alts, 0
  {
    if alts == [] then 0 else PiecesParens(alts[0].pieces) + AltsParens(alts[1..])
  }

  /** Groups are numbered in the order of their opening parentheses, from n on. */
  function AtomTree(a: Atom, n: nat): Re
    requires AtomOk(a)
    decreases a, 0
  {
    match a
    case Caret => Bol
    case Dollar => Eol
    case Dot => Any
    case Class(not, first, ms) =>
      var cs := [first] + MembersChars(ms, first);
      if not then NoneOf(cs) else OneOf(cs)
    case Word(cs) => Lit(cs)
    case Quoted(c) => Lit([c])
    case Paren(alts) => Group(n, AltsTree(alts, n + 1))
  }

  function PieceTree(x: Piece, n: nat): Re
    requires PieceOk(x)
    decreases x, 0
  {
    var r := AtomTree(x.atom, n);
    match x.sign
    case Once => r
    case Starred => Star(r)
    case Plussed => Plus(r)
    case Maybe => Opt(r)
  }

  function PiecesTree(xs: seq<Piece>, n: nat): seq<Re>
    requires PiecesOk(xs)
    decreases xs, 0
  {
    if xs == [] then []
    else [PieceTree(xs[0], n)] + PiecesTree(xs[1..], n + PieceParens(xs[0]))
  }

  function AltsTree(alts: seq<Alt>, n: nat): seq<Branch>
    requires AltsOk(alts)
    decreases alts, 0
  {
    [Branch(PiecesTree(alts[0].pieces, n))]
    + if |alts| == 1 then [] else AltsTree(alts[1..], n + PiecesParens(alts[0].pieces))
  }

  /** Nothing that matches the empty string is repeated by * or +. */
  ghost predicate Solid(r: Re)
    decreases r
  {
    match r
    case Star(x) => !Match(x, [], 0, 0) && Solid(x)
    case Plus(x) => !Match(x, [], 0, 0) && Solid(x)
    case Opt(x) => Solid(x)
    case Group(_, alts) => AltsSolid(alts)
    case _ => true
  }

  ghost predicate PiecesSolid(ps: seq<Re>)
    decreases ps
  {
    forall r | r in ps :: Solid(r)
  }

  ghost predicate AltsSolid(alts: seq<Branch>)
    decreases alts
  {
    forall b | b in alts :: PiecesSolid(b.ps)
  }

  /** The pattern p is written as the alternatives f, which have at most nine groups. */
  ghost predicate SpelledBy(p: seq<Ch>, alts: seq<Branch>, f: seq<Alt>) {
    AltsOk(f) && AltsText(f) == p && AltsTree(f, 1) == alts && AltsParens(f) <= 9 && AltsSolid(alts)
  }

  /** The pattern p is a text for the tree. */
  ghost predicate Spells(p: seq<Ch>, alts: seq<Branch>) {
    exists f: seq<Alt> :: SpelledBy(p, alts, f)
  }

  // ------------------------------------------------ what bracket expressions hold

  /** The character before the k-th member. */
  function Before(ms: seq<Member>, first: Ch, k: nat): Ch
    requires k <= |ms|
  {
    if k == 0 then first else match ms[k - 1] case One(c) => c case UpTo(hi) => hi
  }

  /** The k-th member holds c. */
  predicate HoldsAt(ms: seq<Member>, first: Ch, k: nat, c: Ch)
    requires k < |ms|
  {
    match ms[k]
    case One(d) => c == d
    case UpTo(hi) => Before(ms, first, k) <= c <= hi
  }

  predicate Listed(ms: seq<Member>, first: Ch, c: Ch) {
    c == first || exists k: nat :: k < |ms| && HoldsAt(ms, first, k, c)
  }

  /** A character is in the brackets exactly if it is listed, or is in one of the ranges. */
  lemma {:induction false} MembersMean(ms: seq<Member>, first: Ch, c: Ch)
    requires MembersOk(ms, first)
    ensures c in [first] + MembersChars(ms, first) <==> Listed(ms, first, c)
    decreases |ms|
  {
    if ms != [] {
      var next, rest := Before(ms, first, 1), ms[1..];
      MembersMean(rest, next, c);
      ListedStep(ms, first, c);
      if ms[0].UpTo? { BetweenMeans(first, ms[0].hi, c); }
    }
  }

  lemma BetweenMeans(lo: Ch, hi: Ch, c: Ch)
    requires lo <= hi
    ensures c in Between(lo, hi) <==> lo < c <= hi
  {
    if lo < c <= hi { assert Between(lo, hi)[c - lo - 1] == c; }
  }

  lemma ListedStep(ms: seq<Member>, first: Ch, c: Ch)
    requires ms != [] && (ms[0].UpTo? ==> first <= ms[0].hi)
    ensures var next := Before(ms, first, 1);
            Listed(ms, first, c) <==>
            c == first || (ms[0].UpTo? && first <= c <= ms[0].hi) || Listed(ms[1..], next, c)
  {
    var next, rest := Before(ms, first, 1), ms[1..];
    forall k: nat | k < |rest|
      ensures HoldsAt(rest, next, k, c) <==> HoldsAt(ms, first, k + 1, c)
    {
      assert rest[k] == ms[k + 1] && (k > 0 ==> rest[k - 1] == ms[k]);
    }
    if k: nat :| k < |ms| && HoldsAt(ms, first, k, c) {
      if k > 0 { assert HoldsAt(rest, next, k - 1, c); }
    }
    if k: nat :| k < |rest| && HoldsAt(rest, next, k, c) { assert HoldsAt(ms, first, k + 1, c); }
    if c == next { assert HoldsAt(ms, first, 0, c); }
    if ms[0].UpTo? && first <= c <= ms[0].hi { assert HoldsAt(ms, first, 0, c); }
  }

  // ----------------------------------------------------- what may be empty

  /** What has width is what does not match the empty string. */
  lemma {:induction false} WidthMeans(r: Re)
    requires Sound(r)
    ensures Width(r) <==> !Match(r, [], 0, 0)
    decreases r, 0
  {
    match r {
      case Group(_, alts) => AltsWidthMeans(alts);
      case Star(x) => RoundsMatch(x, 0, [], 0, 0);
      case Plus(x) =>
        WidthMeans(x);
        if Match(r, [], 0, 0) {
          var n := PlusRounds(x, [], 0, 0);
          var m := FirstTime(x, n, [], 0, 0);
        }
      case _ =>
    }
  }

  lemma {:induction false} SeqWidthMeans(ps: seq<Re>)
    requires SeqSound(ps)
    ensures SeqWidth(ps) <==> !SeqMatch(ps, [], 0, 0)
    decreases ps, 0
  {
    if ps != [] {
      WidthMeans(ps[0]);
      SeqWidthMeans(ps[1..]);
      if SeqMatch(ps, [], 0, 0) {
        var l := SeqMatchSplit(ps, [], 0, 0);
        MatchRange(ps[0], [], 0, l);
      }
    }
  }

  lemma {:induction false} AltsWidthMeans(alts: seq<Branch>)
    requires AltsSound(alts)
    ensures AltsWidth(alts) <==> !AltsMatch(alts, [], 0, 0)
    decreases alts, 0
  {
    if alts != [] {
      SeqWidthMeans(alts[0].ps);
      AltsWidthMeans(alts[1..]);
    }
  }

  // ------------------------------------------------------- texts are parsed

  /** How the parser's and the texts' ranges agree. */
  lemma {:induction false} RangeBetween(lo: Ch, hi: Ch)
    requires lo <= hi
    ensures RangeTail(lo, hi) == Between(lo, hi)
    decreases hi as int - lo as int
  {
    if lo < hi {
      RangeBetween(lo + 1, hi);
      assert Between(lo, hi) == [lo + 1] + Between(lo + 1, hi);
    }
  }

  lemma First(p: seq<Ch>, pos: nat, t: seq<Ch>)
    requires Reads(p, pos, t) && t != []
    ensures pos + |t| <= |p| && p[pos] == t[0] == CharAt(p, pos)
  {
  }

  /** A dash that is the last of the members is so in the pattern. */
  predicate DashLast(p: seq<Ch>, q: nat, ms: seq<Member>) {
    ms != [] && ms[|ms| - 1] == One('-' as int) ==> CharAt(p, q) == ']' as int || q >= |p|
  }

  /** Members of a bracket expression, one after the other. */
  lemma {:induction false} MembersPass(p: seq<Ch>, pos: nat, ms: seq<Member>, cs: seq<Ch>)
    requires 0 < pos <= |p| && MembersOk(ms, p[pos - 1]) && Reads(p, pos, MembersText(ms)) && DashLast(p, pos + |MembersText(ms)|, ms)
    ensures var q := pos + |MembersText(ms)|;
            && q <= |p| && p[q - 1] == Before(ms, p[pos - 1], |ms|)
            && ParseClass(p, pos, cs) == ParseClass(p, q, cs + MembersChars(ms, p[pos - 1]))
    decreases |ms|
  {
    hide ParseClass, Reads, MembersText, MembersChars, MembersOk, MemberChars;
    if ms == [] {
      NoMembers(p[pos - 1]);
      assert cs + [] == cs;
    } else {
      MembersHead(ms, p[pos - 1]);
      MembersStep(p, pos, ms, cs);
      BeforeStep(ms, p[pos - 1]);
      var head, more := MemberChars(ms[0], p[pos - 1]), ms[1..];
      var q := if ms[0].One? then pos + 1 else pos + 2;
      MembersPass(p, q, more, cs + head);
      Assoc(cs, head, MembersChars(more, p[q - 1]));
    }
  }

  lemma BeforeStep(ms: seq<Member>, first: Ch)
    requires ms != []
    ensures Before(ms[1..], Before(ms, first, 1), |ms| - 1) == Before(ms, first, |ms|)
  {
  }

  /** All members of a bracket expression, up to the closing bracket. */
  lemma MembersParse(p: seq<Ch>, pos: nat, ms: seq<Member>, cs: seq<Ch>)
    requires 0 < pos <= |p| && MembersOk(ms, p[pos - 1]) && Reads(p, pos, MembersText(ms) + [']' as int])
    ensures ParseClass(p, pos, cs) == Accept(cs + MembersChars(ms, p[pos - 1]), pos + |MembersText(ms)| + 1, 0)
  {
    hide MembersText, MembersOk, MembersChars, Reads;
    var t := MembersText(ms);
    ReadsBoth(p, pos, t, [']' as int]);
    First(p, pos + |t|, [']' as int]);
    MembersPass(p, pos, ms, cs);
    ClassUnfold(p, pos + |t|, cs + MembersChars(ms, p[pos - 1]));
  }

  function MemberChars(m: Member, before: Ch): seq<Ch>
    requires m.UpTo? ==> before <= m.hi
  {
    match m case One(c) => [c] case UpTo(hi) => Between(before, hi)
  }

  lemma MembersStep(p: seq<Ch>, pos: nat, ms: seq<Member>, cs: seq<Ch>)
    requires 0 < pos <= |p| && ms != [] && MembersOk(ms, p[pos - 1])
    requires Reads(p, pos, MembersText(ms)) && DashLast(p, pos + |MembersText(ms)|, ms)
    ensures var q := if ms[0].One? then pos + 1 else pos + 2;
            var head := MemberChars(ms[0], p[pos - 1]);
            && q <= |p| && MembersOk(ms[1..], p[q - 1]) && Reads(p, q, MembersText(ms[1..]))
            && |MembersText(ms)| == q - pos + |MembersText(ms[1..])| && p[q - 1] == Before(ms, p[pos - 1], 1)
            && MembersChars(ms, p[pos - 1]) == head + MembersChars(ms[1..], p[q - 1])
            && ParseClass(p, pos, cs) == ParseClass(p, q, cs + head)
  {
    hide ParseClass, MembersText, MembersChars, MembersOk, Reads, RangeTail, Between;
    MembersHead(ms, p[pos - 1]);
    ClassUnfold(p, pos, cs);
    var more := MembersText(ms[1..]);
    match ms[0] {
      case One(c) =>
        ReadsBoth(p, pos, [c], more);
        First(p, pos, [c]);
      case UpTo(hi) =>
        ReadsBoth(p, pos, ['-' as int, hi], more);
        First(p, pos, ['-' as int, hi]);
        Second(p, pos, ['-' as int, hi]);
        RangeBetween(p[pos - 1], hi);
    }
  }

  lemma Second(p: seq<Ch>, pos: nat, t: seq<Ch>)
    requires Reads(p, pos, t) && |t| == 2
    ensures pos + 2 <= |p| && p[pos + 1] == t[1] == CharAt(p, pos + 1)
  {
  }

  lemma MembersHead(ms: seq<Member>, before: Ch)
    requires ms != [] && MembersOk(ms, before)
    ensures ms[0].One? ==> ms[0].c != ']' as int && (ms[0].c == '-' as int ==> ms[1..] == [])
    ensures ms[0].UpTo? ==> ms[0].hi != ']' as int && before <= ms[0].hi
    ensures MembersOk(ms[1..], if ms[0].One? then ms[0].c else ms[0].hi)
    ensures MembersText(ms) == (if ms[0].One? then [ms[0].c] else ['-' as int, ms[0].hi]) + MembersText(ms[1..])
    ensures MembersChars(ms, before) == MemberChars(ms[0], before) + MembersChars(ms[1..], if ms[0].One? then ms[0].c else ms[0].hi)
    ensures ms[1..] == [] ==> MembersText(ms[1..]) == []
  {
  }

  lemma ClassParts(p: seq<Ch>, pos: nat, a: Atom)
    requires a.Class? && Reads(p, pos, AtomText(a))
    ensures var q := if a.not then pos + 2 else pos + 1;
            && CharAt(p, pos) == '[' as int && (a.not ==> CharAt(p, pos + 1) == '^' as int)
            && q < |p| && p[q] == a.first && Reads(p, q + 1, MembersText(a.members) + [']' as int])
            && |AtomText(a)| == q - pos + 2 + |MembersText(a.members)|
  {
    hide Reads, MembersText;
    var not: seq<Ch> := if a.not then ['^' as int] else [];
    var t, end: seq<Ch> := MembersText(a.members), [']' as int];
    var open: seq<Ch>, first: seq<Ch> := ['[' as int], [a.first];
    assert AtomText(a) == open + not + first + t + end;
    ReadsAll(p, pos, open + not + first, t, end);
    ReadsAll(p, pos, open, not, first);
    ReadsBoth(p, pos + 2 + |not|, t, end);
    First(p, pos, open);
    First(p, pos + 1 + |not|, first);
    if a.not { First(p, pos + 1, not); }
  }

  lemma ClassParses(p: seq<Ch>, pos: nat, n: nat, a: Atom)
    requires a.Class? && AtomOk(a) && Reads(p, pos, AtomText(a))
    ensures ParseAtom(p, pos, n) == Accept(AtomTree(a, n), pos + |AtomText(a)|, n)
  {
    hide Reads, MembersText, AtomText, ParseClass, MembersOk, MembersChars, ParseGroup;
    ClassParts(p, pos, a);
    var q := if a.not then pos + 2 else pos + 1;
    ClassUnfold(p, q, []);
    MembersParse(p, q + 1, a.members, [a.first]);
    assert [] + [p[q]] == [a.first];
    assert ParseMembers(p, q) == ParseClass(p, q + 1, [a.first]);
  }

  /** Behind a word there is something else, or a character that a sign repeats. */
  predicate AfterWord(p: seq<Ch>, q: nat) {
    q >= |p| || !Ordinary(p[q]) || IsSign(CharAt(p, q + 1))
  }

  lemma WordLength(p: seq<Ch>, pos: nat, cs: seq<Ch>)
    requires AtomOk(Word(cs)) && Reads(p, pos, cs) && AfterWord(p, pos + |cs|)
    requires |cs| > 1 ==> !IsSign(CharAt(p, pos + |cs|))
    ensures LitLength(p, pos) == |cs|
  {
    var q, n := pos + |cs|, Run(p, pos);
    forall i | pos <= i < q
      ensures !IsMeta(p[i])
    {
      assert p[i] == p[pos..q][i - pos] == cs[i - pos];
    }
    assert n >= |cs|;
    if q < |p| && !IsMeta(p[q]) {
      assert n == |cs| + 1;
    } else {
      assert n == |cs|;
    }
  }

  lemma WordParses(p: seq<Ch>, pos: nat, n: nat, cs: seq<Ch>)
    requires AtomOk(Word(cs)) && Reads(p, pos, cs) && AfterWord(p, pos + |cs|)
    requires |cs| > 1 ==> !IsSign(CharAt(p, pos + |cs|))
    ensures ParseAtom(p, pos, n) == Accept(Lit(cs), pos + |cs|, n)
  {
    WordLength(p, pos, cs);
    First(p, pos, cs);
    assert Ordinary(cs[0]);
    hide Reads, LitLength, AfterWord, ParseBracket, ParseGroup;
    WordHere(p, pos, cs);
  }

  lemma WordHere(p: seq<Ch>, pos: nat, cs: seq<Ch>)
    requires Reads(p, pos, cs)
    ensures pos + |cs| <= |p| && p[pos..pos + |cs|] == cs
  {
  }

  lemma MarkParses(p: seq<Ch>, pos: nat, n: nat, a: Atom)
    requires (a.Caret? || a.Dollar? || a.Dot? || a.Quoted?) && Reads(p, pos, AtomText(a))
    ensures ParseAtom(p, pos, n) == Accept(AtomTree(a, n), pos + |AtomText(a)|, n)
  {
    First(p, pos, AtomText(a));
    if a.Quoted? { Second(p, pos, AtomText(a)); }
    hide Reads, LitLength, ParseBracket, ParseGroup;
  }

  /** What a piece is followed by. */
  predicate Behind(p: seq<Ch>, q: nat, x: Piece) {
    !IsSign(CharAt(p, q)) && (x.atom.Word? && x.sign.Once? ==> AfterWord(p, q))
  }

  /** The end of an alternative: that of the pattern, a bar or a closing parenthesis. */
  predicate Ends(p: seq<Ch>, q: nat) {
    q >= |p| || p[q] == '|' as int || p[q] == ')' as int
  }

  lemma {:induction false} AtomParses(p: seq<Ch>, pos: nat, n: nat, a: Atom)
    requires AtomOk(a) && Reads(p, pos, AtomText(a)) && 1 <= n && n + AtomParens(a) <= 10 && Solid(AtomTree(a, n))
    requires a.Word? ==> AfterWord(p, pos + |a.cs|) && (|a.cs| > 1 ==> !IsSign(CharAt(p, pos + |a.cs|)))
    ensures ParseAtom(p, pos, n) == Accept(AtomTree(a, n), pos + |AtomText(a)|, n + AtomParens(a))
    decreases a, 1
  {
    hide ParseAtom;
    match a {
      case Class(_, _, _) => ClassParses(p, pos, n, a);
      case Word(cs) => WordParses(p, pos, n, cs);
      case Paren(alts) => ParenParses(p, pos, n, alts);
      case _ => MarkParses(p, pos, n, a);
    }
  }

  lemma {:induction false} ParenParses(p: seq<Ch>, pos: nat, n: nat, alts: seq<Alt>)
    requires AltsOk(alts) && Reads(p, pos, AtomText(Paren(alts))) && 1 <= n && n + 1 + AltsParens(alts) <= 10
    requires AltsSolid(AltsTree(alts, n + 1))
    ensures ParseAtom(p, pos, n) == Accept(Group(n, AltsTree(alts, n + 1)), pos + |AltsText(alts)| + 2, n + 1 + AltsParens(alts))
    decreases alts, 2
  {
    hide Reads, AltsText, AltsTree, AltsParens, AltsOk, AltsSolid, ParseAlts, ParseBracket, LitLength;
    ReadsAll(p, pos, ['(' as int], AltsText(alts), [')' as int]);
    First(p, pos, ['(' as int]);
    First(p, pos + 1 + |AltsText(alts)|, [')' as int]);
    AltsParse(p, pos + 1, n + 1, alts, []);
    assert [] + AltsTree(alts, n + 1) == AltsTree(alts, n + 1);
    var z := pos + 2 + |AltsText(alts)|;
    assert ParseReg(p, pos + 1, n, true) == Accept(AltsTree(alts, n + 1), z, n + 1 + AltsParens(alts));
    assert ParseAtom(p, pos, n) == ParseGroup(p, pos + 1, n);
  }

  lemma PieceParts(p: seq<Ch>, pos: nat, x: Piece)
    requires Reads(p, pos, PieceText(x))
    ensures var q := pos + |AtomText(x.atom)|;
            && Reads(p, pos, AtomText(x.atom)) && Reads(p, q, SignText(x.sign)) && |PieceText(x)| == q - pos + |SignText(x.sign)|
            && (!x.sign.Once? ==> CharAt(p, q) == SignText(x.sign)[0])
  {
    hide AtomText, Reads;
    var q := pos + |AtomText(x.atom)|;
    ReadsBoth(p, pos, AtomText(x.atom), SignText(x.sign));
    if !x.sign.Once? { First(p, q, SignText(x.sign)); }
  }

  lemma WordText(a: Atom)
    ensures a.Word? ==> AtomText(a) == a.cs
  {
  }

  /** A piece, by its atom. */
  lemma {:induction false} PieceParses(p: seq<Ch>, pos: nat, n: nat, x: Piece)
    requires PieceOk(x) && Reads(p, pos, PieceText(x)) && 1 <= n && n + PieceParens(x) <= 10 && Solid(PieceTree(x, n))
    requires Behind(p, pos + |PieceText(x)|, x)
    ensures ParsePiece(p, pos, n) == Accept(PieceTree(x, n), pos + |PieceText(x)|, n + PieceParens(x))
    decreases x, 1
  {
    hide AtomText, PieceText, ParseAtom, AtomOk, AtomTree, AtomParens, Reads, Match;
    PieceParts(p, pos, x);
    WordText(x.atom);
    AtomParses(p, pos, n, x.atom);
    AtomSound(p, pos, n);
    WidthMeans(AtomTree(x.atom, n));
    hide Width, Sound, Solid;
  }

  /** A piece begins neither with a sign nor with the end of an alternative. */
  lemma PieceBegins(x: Piece)
    requires PieceOk(x)
    ensures PieceText(x) != []
    ensures var c := PieceText(x)[0]; !IsSign(c) && c != '|' as int && c != ')' as int && (Ordinary(c) ==> x.atom.Word?)
    ensures x.atom.Word? && !x.sign.Once? ==> |PieceText(x)| == 2 && IsSign(PieceText(x)[1])
  {
    hide AltsText, MembersText, AltsOk, MembersOk;
    assert PieceText(x) == AtomText(x.atom) + SignText(x.sign);
  }

  predicate BehindLast(p: seq<Ch>, q: nat, xs: seq<Piece>) {
    xs != [] ==> Behind(p, q, xs[|xs| - 1])
  }

  lemma EndsLast(p: seq<Ch>, q: nat, xs: seq<Piece>)
    requires Ends(p, q)
    ensures BehindLast(p, q, xs)
  {
  }

  lemma PiecesParts(p: seq<Ch>, pos: nat, xs: seq<Piece>)
    requires xs != [] && PiecesOk(xs) && Reads(p, pos, PiecesText(xs)) && BehindLast(p, pos + |PiecesText(xs)|, xs)
    ensures var q := pos + |PieceText(xs[0])|;
            && PieceOk(xs[0]) && Reads(p, pos, PieceText(xs[0])) && !Ends(p, pos) && pos < q && Behind(p, q, xs[0])
            && PiecesOk(xs[1..]) && Reads(p, q, PiecesText(xs[1..])) && BehindLast(p, pos + |PiecesText(xs)|, xs[1..])
            && q + |PiecesText(xs[1..])| == pos + |PiecesText(xs)|
  {
    hide PieceText, PieceOk, Reads;
    var x, more, q := xs[0], xs[1..], pos + |PieceText(xs[0])|;
    ReadsBoth(p, pos, PieceText(x), PiecesText(more));
    PieceBegins(x);
    First(p, pos, PieceText(x));
    if more != [] {
      ReadsBoth(p, q, PieceText(more[0]), PiecesText(more[1..]));
      PieceBegins(more[0]);
      First(p, q, PieceText(more[0]));
      if more[0].atom.Word? && !more[0].sign.Once? { Second(p, q, PieceText(more[0])); }
    }
  }

  lemma EndsMeans(p: seq<Ch>, q: nat)
    ensures Ends(p, q) <==> AtBranchEnd(p, q)
  {
  }

  /** Pieces one after the other. */
  lemma {:induction false} PiecesPass(p: seq<Ch>, pos: nat, n: nat, xs: seq<Piece>, ps: seq<Re>)
    requires PiecesOk(xs) && Reads(p, pos, PiecesText(xs)) && BehindLast(p, pos + |PiecesText(xs)|, xs)
    requires 1 <= n && n + PiecesParens(xs) <= 10 && PiecesSolid(PiecesTree(xs, n))
    ensures ParseBranch(p, pos, n, ps) ==
            ParseBranch(p, pos + |PiecesText(xs)|, n + PiecesParens(xs), ps + PiecesTree(xs, n))
    decreases xs, 1
  {
    hide ParsePiece, ParseBranch, Reads, PieceText, PieceTree, PieceParens, PieceOk, Solid, Ends, Behind, BehindLast;
    if xs == [] {
      assert ps + [] == ps;
    } else {
      BranchUnfold(p, pos, n, ps);
      EndsMeans(p, pos);
      var x, more := xs[0], xs[1..];
      PiecesParts(p, pos, xs);
      var r, q, n' := PieceTree(x, n), pos + |PieceText(x)|, n + PieceParens(x);
      assert PiecesTree(xs, n) == [r] + PiecesTree(more, n');
      assert Solid(r) && PiecesSolid(PiecesTree(more, n'));
      PieceParses(p, pos, n, x);
      PiecesPass(p, q, n', more, ps + [r]);
      Assoc(ps, [r], PiecesTree(more, n'));
    }
  }

  /** The pieces of an alternative, up to its end. */
  lemma {:induction false} PiecesParse(p: seq<Ch>, pos: nat, n: nat, xs: seq<Piece>, ps: seq<Re>)
    requires PiecesOk(xs) && Reads(p, pos, PiecesText(xs)) && Ends(p, pos + |PiecesText(xs)|)
    requires 1 <= n && n + PiecesParens(xs) <= 10 && PiecesSolid(PiecesTree(xs, n))
    ensures ParseBranch(p, pos, n, ps) == Accept(ps + PiecesTree(xs, n), pos + |PiecesText(xs)|, n + PiecesParens(xs))
    decreases xs, 2
  {
    hide ParseBranch, Reads, PiecesText, PiecesTree, PiecesParens, PiecesOk, PiecesSolid, Ends, BehindLast;
    var q := pos + |PiecesText(xs)|;
    EndsLast(p, q, xs);
    PiecesPass(p, pos, n, xs, ps);
    BranchUnfold(p, q, n + PiecesParens(xs), ps + PiecesTree(xs, n));
    EndsMeans(p, q);
  }

  lemma AltsParts(p: seq<Ch>, pos: nat, f: seq<Alt>)
    requires AltsOk(f) && Reads(p, pos, AltsText(f))
    requires var z := pos + |AltsText(f)|; z >= |p| || p[z] == ')' as int
    ensures var q := pos + |PiecesText(f[0].pieces)|;
            && PiecesOk(f[0].pieces) && Reads(p, pos, PiecesText(f[0].pieces)) && Ends(p, q)
            && if |f| == 1 then q == pos + |AltsText(f)| && CharAt(p, q) != '|' as int
               else && CharAt(p, q) == '|' as int && AltsOk(f[1..]) && Reads(p, q + 1, AltsText(f[1..]))
                    && q + 1 + |AltsText(f[1..])| == pos + |AltsText(f)|
  {
    hide PiecesText, PiecesOk, Reads;
    var t, q := PiecesText(f[0].pieces), pos + |PiecesText(f[0].pieces)|;
    if |f| == 1 {
      assert t + [] == t;
    } else {
      ReadsBoth(p, pos, t, ['|' as int] + AltsText(f[1..]));
      ReadsBoth(p, q, ['|' as int], AltsText(f[1..]));
      First(p, q, ['|' as int]);
    }
  }

  lemma AltsHead(f: seq<Alt>, n: nat)
    requires AltsOk(f)
    ensures f != [] && PiecesOk(f[0].pieces) && (|f| > 1 ==> AltsOk(f[1..]))
    ensures var b, n' := Branch(PiecesTree(f[0].pieces, n)), n + PiecesParens(f[0].pieces);
            && AltsTree(f, n) == (if |f| == 1 then [b] else [b] + AltsTree(f[1..], n'))
            && (AltsSolid(AltsTree(f, n)) <==> PiecesSolid(b.ps) && (|f| > 1 ==> AltsSolid(AltsTree(f[1..], n'))))
            && n + AltsParens(f) == n' + (if |f| == 1 then 0 else AltsParens(f[1..]))
  {
    hide PiecesTree, PiecesParens, PiecesOk, PiecesSolid;
    assert [Branch(PiecesTree(f[0].pieces, n))] + [] == [Branch(PiecesTree(f[0].pieces, n))];
  }

  /** Alternatives one after the other, up to the end of the pattern or of the group. */
  lemma {:induction false} AltsParse(p: seq<Ch>, pos: nat, n: nat, f: seq<Alt>, alts: seq<Branch>)
    requires AltsOk(f) && Reads(p, pos, AltsText(f)) && 1 <= n && n + AltsParens(f) <= 10 && AltsSolid(AltsTree(f, n))
    requires var z := pos + |AltsText(f)|; z >= |p| || p[z] == ')' as int
    ensures ParseAlts(p, pos, n, alts) == Accept(alts + AltsTree(f, n), pos + |AltsText(f)|, n + AltsParens(f))
    decreases f, 1
  {
    hide *;
    AltsHead(f, n);
    AltsParts(p, pos, f);
    var xs := f[0].pieces;
    PiecesParse(p, pos, n, xs, []);
    AltPass(p, pos, n, xs, alts);
    if |f| > 1 {
      var b, n' := Branch(PiecesTree(xs, n)), n + PiecesParens(xs);
      AltsParse(p, pos + |PiecesText(xs)| + 1, n', f[1..], alts + [b]);
      Assoc(alts, [b], AltsTree(f[1..], n'));
    }
  }

  lemma AltPass(p: seq<Ch>, pos: nat, n: nat, xs: seq<Piece>, alts: seq<Branch>)
    requires PiecesOk(xs)
    requires ParseBranch(p, pos, n, []) == Accept([] + PiecesTree(xs, n), pos + |PiecesText(xs)|, n + PiecesParens(xs))
    ensures var b, q, n' := Branch(PiecesTree(xs, n)), pos + |PiecesText(xs)|, n + PiecesParens(xs);
            ParseAlts(p, pos, n, alts) ==
            if CharAt(p, q) == '|' as int then ParseAlts(p, q + 1, n', alts + [b]) else Accept(alts + [b], q, n')
  {
    hide ParseBranch, ParseAlts, PiecesText, PiecesTree, PiecesParens, PiecesOk;
    assert [] + PiecesTree(xs, n) == PiecesTree(xs, n);
    AltsUnfold(p, pos, n, alts);
  }

  /** A pattern that is written by the rules is parsed to the tree that it stands for. */
  lemma SpelledParses(p: seq<Ch>, alts: seq<Branch>)
    requires Spells(p, alts)
    ensures ParsePattern(p).Accept? && ParsePattern(p).value == alts
  {
    var f: seq<Alt> :| SpelledBy(p, alts, f);
    hide ParseAlts, AltsTree, AltsParens, AltsText, AltsOk, AltsSolid;
    AltsParse(p, 0, 1, f, []);
    assert [] + alts == alts;
  }

  // ------------------------------------------- what is parsed is written so

  /** The members of a bracket expression that is accepted. */
  lemma {:induction false} MembersOf(p: seq<Ch>, pos: nat, cs: seq<Ch>) returns (ms: seq<Member>)
    requires 0 < pos <= |p| && ParseClass(p, pos, cs).Accept?
    ensures MembersOk(ms, p[pos - 1]) && Reads(p, pos, MembersText(ms) + [']' as int])
    ensures ParseClass(p, pos, cs).pos == pos + |MembersText(ms)| + 1
    ensures ParseClass(p, pos, cs).value == cs + MembersChars(ms, p[pos - 1])
    decreases |p| - pos
  {
    hide ParseClass, MembersText, MembersChars, MembersOk, RangeTail, Between;
    ClassUnfold(p, pos, cs);
    var c, d := CharAt(p, pos), CharAt(p, pos + 1);
    if c == ']' as int {
      ms := [];
      NoMembers(p[pos - 1]);
      assert cs + [] == cs;
    } else {
      var m := if c != '-' as int || d == ']' as int || d == 0 then One(p[pos]) else UpTo(p[pos + 1]);
      var q := if m.One? then pos + 1 else pos + 2;
      if m.UpTo? { RangeBetween(p[pos - 1], p[pos + 1]); }
      var head := MemberChars(m, p[pos - 1]);
      var more := MembersOf(p, q, cs + head);
      if c == '-' as int && m.One? { OnlyOne(p, q, cs + head, more); }
      ms := [m] + more;
      assert ms[1..] == more;
      MembersCons(p, pos, m, more);
      Assoc(cs, head, MembersChars(more, p[q - 1]));
    }
  }

  lemma NoMembers(before: Ch)
    ensures MembersText([]) == [] && MembersOk([], before) && MembersChars([], before) == []
  {
  }

  /** Nothing is left at a closing bracket. */
  lemma OnlyOne(p: seq<Ch>, q: nat, cs: seq<Ch>, more: seq<Member>)
    requires 0 < q <= |p| && ParseClass(p, q, cs).Accept? && (CharAt(p, q) == ']' as int || CharAt(p, q) == 0)
    requires MembersOk(more, p[q - 1]) && Reads(p, q, MembersText(more) + [']' as int])
    ensures more == []
  {
    if more != [] { First(p, q, MembersText(more) + [']' as int]); }
  }

  lemma MembersCons(p: seq<Ch>, pos: nat, m: Member, more: seq<Member>)
    requires 0 < pos < |p| && (if m.One? then m.c == p[pos] != ']' as int && (m.c == '-' as int ==> more == [])
                               else pos + 1 < |p| && p[pos] == '-' as int && m.hi == p[pos + 1] != ']' as int && p[pos - 1] <= m.hi)
    requires var q := if m.One? then pos + 1 else pos + 2;
             MembersOk(more, p[q - 1]) && Reads(p, q, MembersText(more) + [']' as int])
    ensures var q := if m.One? then pos + 1 else pos + 2;
            var ms := [m] + more;
            && MembersOk(ms, p[pos - 1]) && Reads(p, pos, MembersText(ms) + [']' as int])
            && |MembersText(ms)| == q - pos + |MembersText(more)|
            && MembersChars(ms, p[pos - 1]) == MemberChars(m, p[pos - 1]) + MembersChars(more, p[q - 1])
  {
    var ms := [m] + more;
    var head: seq<Ch> := if m.One? then [m.c] else ['-' as int, m.hi];
    assert ms[0] == m && ms[1..] == more;
    assert MembersText(ms) == head + MembersText(more);
    hide MembersText, MembersOk, MembersChars;
    var end: seq<Ch> := [']' as int];
    Assoc(head, MembersText(more), end);
    ReadsBoth(p, pos, head, MembersText(more) + end);
    hide MembersText;
  }

  lemma ClassOf(p: seq<Ch>, pos: nat, n: nat) returns (a: Atom)
    requires CharAt(p, pos) == '[' as int && ParseAtom(p, pos, n).Accept?
    ensures a.Class? && AtomOk(a) && Reads(p, pos, AtomText(a))
    ensures ParseAtom(p, pos, n) == Accept(AtomTree(a, n), pos + |AtomText(a)|, n)
  {
    hide ParseClass, ParseGroup, LitLength, MembersText, MembersOk, MembersChars, Reads;
    var not := CharAt(p, pos + 1) == '^' as int;
    var q := if not then pos + 2 else pos + 1;
    ClassUnfold(p, q, []);
    assert ParseMembers(p, q).Accept?;
    assert [] + [p[q]] == [p[q]];
    assert ParseMembers(p, q) == ParseClass(p, q + 1, [p[q]]);
    var ms := MembersOf(p, q + 1, [p[q]]);
    a := Class(not, p[q], ms);
    ClassReads(p, pos, a);
    ClassParses(p, pos, n, a);
  }

  lemma ClassReads(p: seq<Ch>, pos: nat, a: Atom)
    requires a.Class? && CharAt(p, pos) == '[' as int && (a.not ==> CharAt(p, pos + 1) == '^' as int)
    requires var q := if a.not then pos + 2 else pos + 1;
             q < |p| && p[q] == a.first && Reads(p, q + 1, MembersText(a.members) + [']' as int])
    ensures Reads(p, pos, AtomText(a))
  {
    hide MembersText;
    var not: seq<Ch> := if a.not then ['^' as int] else [];
    var t, end: seq<Ch> := MembersText(a.members), [']' as int];
    var open: seq<Ch>, first: seq<Ch> := ['[' as int], [a.first];
    assert AtomText(a) == open + not + first + t + end;
    hide Reads;
    ReadsOne(p, pos);
    if a.not { ReadsOne(p, pos + 1); } else { NoText(p, pos + 1); }
    ReadsOne(p, pos + 1 + |not|);
    ReadsAll(p, pos, open + not + first, t, end);
    ReadsAll(p, pos, open, not, first);
    ReadsBoth(p, pos + 2 + |not|, t, end);
  }

  /** Ordinary characters are a word as long as it can be, less the one that a sign repeats. */
  lemma WordOf(p: seq<Ch>, pos: nat, n: nat) returns (a: Atom)
    requires pos < |p| && Ordinary(p[pos])
    ensures a.Word? && AtomOk(a) && Reads(p, pos, a.cs) && AfterWord(p, pos + |a.cs|)
    ensures |a.cs| > 1 ==> !IsSign(CharAt(p, pos + |a.cs|))
    ensures ParseAtom(p, pos, n) == Accept(Lit(a.cs), pos + |a.cs|, n)
  {
    hide ParseBracket, ParseGroup;
    var m, k := Run(p, pos), LitLength(p, pos);
    a := Word(p[pos..pos + k]);
    assert forall i :: 0 <= i < k ==> a.cs[i] == p[pos + i];
    WordEnds(p, pos);
  }

  lemma WordEnds(p: seq<Ch>, pos: nat)
    requires pos < |p| && Ordinary(p[pos])
    ensures var k := LitLength(p, pos);
            && 1 <= k && pos + k <= |p| && (forall i :: pos <= i < pos + k ==> Ordinary(p[i]))
            && AfterWord(p, pos + k) && (k > 1 ==> !IsSign(CharAt(p, pos + k)))
  {
    var m, k := Run(p, pos), LitLength(p, pos);
    assert forall i :: pos <= i < pos + m ==> Ordinary(p[i]);
  }

  /** An atom that is accepted. */
  lemma {:induction false} AtomOf(p: seq<Ch>, pos: nat, n: nat) returns (a: Atom)
    requires ParseAtom(p, pos, n).Accept? && n >= 1
    ensures AtomOk(a) && Reads(p, pos, AtomText(a)) && Solid(AtomTree(a, n))
    ensures ParseAtom(p, pos, n) == Accept(AtomTree(a, n), pos + |AtomText(a)|, n + AtomParens(a))
    ensures a.Word? ==> AfterWord(p, pos + |a.cs|) && (|a.cs| > 1 ==> !IsSign(CharAt(p, pos + |a.cs|)))
    decreases |p| - pos, 1
  {
    var c := CharAt(p, pos);
    if c == '[' as int {
      a := ClassOf(p, pos, n);
    } else if c == '(' as int {
      a := ParenOf(p, pos, n);
    } else if Ordinary(c) {
      a := WordOf(p, pos, n);
    } else {
      a := MarkOf(p, pos, n);
    }
  }

  lemma MarkOf(p: seq<Ch>, pos: nat, n: nat) returns (a: Atom)
    requires ParseAtom(p, pos, n).Accept? && !Ordinary(CharAt(p, pos)) && CharAt(p, pos) != '[' as int && CharAt(p, pos) != '(' as int
    ensures (a.Caret? || a.Dollar? || a.Dot? || a.Quoted?) && AtomOk(a) && Reads(p, pos, AtomText(a)) && Solid(AtomTree(a, n))
    ensures ParseAtom(p, pos, n) == Accept(AtomTree(a, n), pos + |AtomText(a)|, n)
  {
    hide LitLength, ParseBracket, ParseGroup, Reads, Match;
    var c := CharAt(p, pos);
    a := if c == '^' as int then Caret else if c == '$' as int then Dollar else if c == '.' as int then Dot else Quoted(p[pos + 1]);
    ReadsOne(p, pos);
    if a.Quoted? {
      ReadsOne(p, pos + 1);
      ReadsBoth(p, pos, [p[pos]], [p[pos + 1]]);
      assert AtomText(a) == [p[pos]] + [p[pos + 1]];
    } else {
      assert AtomText(a) == [p[pos]];
    }
  }

  lemma {:induction false} ParenOf(p: seq<Ch>, pos: nat, n: nat) returns (a: Atom)
    requires CharAt(p, pos) == '(' as int && ParseAtom(p, pos, n).Accept? && n >= 1
    ensures a.Paren? && AtomOk(a) && Reads(p, pos, AtomText(a)) && Solid(AtomTree(a, n))
    ensures ParseAtom(p, pos, n) == Accept(AtomTree(a, n), pos + |AtomText(a)|, n + AtomParens(a))
    decreases |p| - pos, 0
  {
    hide Reads, AltsText, AltsTree, AltsParens, AltsOk, AltsSolid, ParseAlts, ParseBracket, LitLength;
    var all := ParseReg(p, pos + 1, n, true);
    assert ParseAtom(p, pos, n) == ParseGroup(p, pos + 1, n);
    var f := AltsOf(p, pos + 1, n + 1, []);
    assert [] + AltsTree(f, n + 1) == AltsTree(f, n + 1);
    a := Paren(f);
    var z := pos + 1 + |AltsText(f)|;
    assert all == Accept(AltsTree(f, n + 1), z + 1, n + 1 + AltsParens(f));
    ReadsOne(p, pos);
    ReadsOne(p, z);
    ReadsAll(p, pos, ['(' as int], AltsText(f), [')' as int]);
  }

  lemma ReadsOne(p: seq<Ch>, pos: nat)
    requires pos < |p|
    ensures Reads(p, pos, [p[pos]])
  {
  }

  /** A piece that is accepted. */
  lemma {:induction false} PieceOf(p: seq<Ch>, pos: nat, n: nat) returns (x: Piece)
    requires ParsePiece(p, pos, n).Accept? && n >= 1
    ensures PieceOk(x) && Reads(p, pos, PieceText(x)) && Solid(PieceTree(x, n)) && Behind(p, pos + |PieceText(x)|, x)
    ensures ParsePiece(p, pos, n) == Accept(PieceTree(x, n), pos + |PieceText(x)|, n + PieceParens(x))
    decreases |p| - pos, 2
  {
    hide AtomText, ParseAtom, AtomOk, AtomTree, AtomParens, Reads, Match, AfterWord;
    var a := AtomOf(p, pos, n);
    AtomSound(p, pos, n);
    WidthMeans(AtomTree(a, n));
    hide Width, Sound;
    var q := pos + |AtomText(a)|;
    var op := CharAt(p, q);
    x := Piece(a, if op == '*' as int then Starred else if op == '+' as int then Plussed else if op == '?' as int then Maybe else Once);
    WordText(a);
    if !x.sign.Once? { ReadsOne(p, q); }
    ReadsBoth(p, pos, AtomText(a), SignText(x.sign));
    if x.sign.Once? { assert PieceText(x) == AtomText(a); }
  }

  /** The pieces of an alternative that is accepted. */
  lemma {:induction false} PiecesOf(p: seq<Ch>, pos: nat, n: nat, ps: seq<Re>) returns (xs: seq<Piece>)
    requires ParseBranch(p, pos, n, ps).Accept? && n >= 1 && pos <= |p|
    ensures PiecesOk(xs) && Reads(p, pos, PiecesText(xs)) && PiecesSolid(PiecesTree(xs, n)) && Ends(p, pos + |PiecesText(xs)|)
    ensures ParseBranch(p, pos, n, ps) == Accept(ps + PiecesTree(xs, n), pos + |PiecesText(xs)|, n + PiecesParens(xs))
    decreases |p| - pos, 3
  {
    hide ParsePiece, ParseBranch, Reads, PieceText, PieceTree, PieceParens, PieceOk, Solid, Ends, Behind;
    BranchUnfold(p, pos, n, ps);
    EndsMeans(p, pos);
    xs := [];
    if !AtBranchEnd(p, pos) {
      var x := PieceOf(p, pos, n);
      var q, n' := pos + |PieceText(x)|, n + PieceParens(x);
      var more := PiecesOf(p, q, n', ps + [PieceTree(x, n)]);
      xs := [x] + more;
      assert xs[1..] == more;
      if more != [] {
        EndsLast(p, q + |PiecesText(more)|, more);
        PiecesParts(p, q, more);
        AreApart(p, q, x, more[0]);
      }
      Assoc(ps, [PieceTree(x, n)], PiecesTree(more, n'));
      ReadsBoth(p, pos, PieceText(x), PiecesText(more));
    } else {
      assert ps + [] == ps;
      NoText(p, pos);
    }
  }

  lemma NoText(p: seq<Ch>, pos: nat)
    requires pos <= |p|
    ensures Reads(p, pos, [])
  {
  }

  /** A word behind a word is a single character with a sign. */
  lemma AreApart(p: seq<Ch>, q: nat, x: Piece, y: Piece)
    requires PieceOk(y) && Behind(p, q, x) && Reads(p, q, PieceText(y)) && Behind(p, q + |PieceText(y)|, y)
    ensures Apart(x, y)
  {
    if y.atom.Word? && y.sign.Once? { WordBegins(p, q, y); }
  }

  lemma WordBegins(p: seq<Ch>, q: nat, y: Piece)
    requires PieceOk(y) && y.atom.Word? && y.sign.Once? && Reads(p, q, PieceText(y)) && Behind(p, q + |PieceText(y)|, y)
    ensures q < |p| && Ordinary(p[q]) && !IsSign(CharAt(p, q + 1))
  {
    var cs := y.atom.cs;
    assert PieceText(y) == cs;
    First(p, q, cs);
    assert Ordinary(cs[0]);
    if |cs| > 1 { assert p[q + 1] == p[q..q + |cs|][1] == cs[1]; }
  }

  /** The alternatives that are accepted. */
  lemma {:induction false} AltsOf(p: seq<Ch>, pos: nat, n: nat, alts: seq<Branch>) returns (f: seq<Alt>)
    requires ParseAlts(p, pos, n, alts).Accept? && n >= 1 && pos <= |p|
    ensures AltsOk(f) && Reads(p, pos, AltsText(f)) && AltsSolid(AltsTree(f, n))
    ensures var z := pos + |AltsText(f)|; z >= |p| || p[z] == ')' as int
    ensures ParseAlts(p, pos, n, alts) == Accept(alts + AltsTree(f, n), pos + |AltsText(f)|, n + AltsParens(f))
    decreases |p| - pos, 4
  {
    hide ParseBranch, ParseAlts, Reads, PiecesText, PiecesTree, PiecesParens, PiecesOk, PiecesSolid;
    AltsUnfold(p, pos, n, alts);
    var xs := PiecesOf(p, pos, n, []);
    assert [] + PiecesTree(xs, n) == PiecesTree(xs, n);
    var b, q, n' := Branch(PiecesTree(xs, n)), pos + |PiecesText(xs)|, n + PiecesParens(xs);
    if CharAt(p, q) == '|' as int {
      var more := AltsOf(p, q + 1, n', alts + [b]);
      f := [Alt(xs)] + more;
      Assoc(alts, [b], AltsTree(more, n'));
      ReadsOne(p, q);
      MoreAlts(p, pos, n, xs, more);
    } else {
      f := [Alt(xs)];
      OneAlt(xs, n);
    }
  }

  lemma OneAlt(xs: seq<Piece>, n: nat)
    requires PiecesOk(xs) && PiecesSolid(PiecesTree(xs, n))
    ensures var f := [Alt(xs)];
            && AltsOk(f) && AltsText(f) == PiecesText(xs) && AltsTree(f, n) == [Branch(PiecesTree(xs, n))]
            && AltsParens(f) == PiecesParens(xs) && AltsSolid(AltsTree(f, n))
  {
    hide PiecesOk, PiecesText, PiecesTree, PiecesParens, PiecesSolid;
    assert PiecesText(xs) + [] == PiecesText(xs);
  }

  lemma MoreAlts(p: seq<Ch>, pos: nat, n: nat, xs: seq<Piece>, more: seq<Alt>)
    requires PiecesOk(xs) && AltsOk(more) && Reads(p, pos, PiecesText(xs))
    requires var q := pos + |PiecesText(xs)|; Reads(p, q, ['|' as int]) && Reads(p, q + 1, AltsText(more))
    requires PiecesSolid(PiecesTree(xs, n)) && AltsSolid(AltsTree(more, n + PiecesParens(xs)))
    ensures var f := [Alt(xs)] + more;
            && AltsOk(f) && Reads(p, pos, AltsText(f)) && |AltsText(f)| == |PiecesText(xs)| + 1 + |AltsText(more)|
            && AltsTree(f, n) == [Branch(PiecesTree(xs, n))] + AltsTree(more, n + PiecesParens(xs))
            && AltsParens(f) == PiecesParens(xs) + AltsParens(more) && AltsSolid(AltsTree(f, n))
  {
    hide Reads, PiecesOk, PiecesText, PiecesTree, PiecesParens, PiecesSolid;
    var f := [Alt(xs)] + more;
    assert f[1..] == more && f[0] == Alt(xs);
    assert more != [];
    ReadsBoth(p, pos + |PiecesText(xs)|, ['|' as int], AltsText(more));
    ReadsBoth(p, pos, PiecesText(xs), ['|' as int] + AltsText(more));
  }

  // ------------------------------------------------------------ the theorem

  /** A pattern is accepted, as a tree, exactly if it is written by the rules for the tree. */
  lemma ParsesIffSpelled(p: seq<Ch>, alts: seq<Branch>)
    ensures ParsePattern(p).Accept? && ParsePattern(p).value == alts <==> Spells(p, alts)
  {
    hide SpelledBy, ParseAlts;
    if ParsePattern(p).Accept? && ParsePattern(p).value == alts {
      var f := AltsOf(p, 0, 1, []);
      SpelledSo(p, alts, f);
    }
    if Spells(p, alts) { SpelledParses(p, alts); }
  }

  lemma SpelledSo(p: seq<Ch>, alts: seq<Branch>, f: seq<Alt>)
    requires AltsOk(f) && Reads(p, 0, AltsText(f)) && AltsSolid(AltsTree(f, 1)) && ParsePattern(p).Accept? && ParsePattern(p).value == alts
    requires ParseAlts(p, 0, 1, []) == Accept([] + AltsTree(f, 1), |AltsText(f)|, 1 + AltsParens(f))
    ensures SpelledBy(p, alts, f)
  {
    hide ParseAlts, AltsText, AltsTree, AltsParens, AltsOk, AltsSolid;
    assert p[..] == p;
    assert [] + AltsTree(f, 1) == AltsTree(f, 1);
    assert ParseReg(p, 0, 1, false) == ParseAlts(p, 0, 1, []);
    assert ParseAlts(p, 0, 1, []).npar <= 10;
  }
}
