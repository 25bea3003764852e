/** Patterns that are refused, by what is wrong with them at the first place where something is. */
module RegexRefused {
  import opened Bytes
  import opened Ascii
  import opened RegexSyntax
  import opened RegexLang
  import opened RegexGrammar

  // -------------------------------------------------- patterns up to a place

  /** A group that is open, or the pattern around all of them: the alternatives that have ended
      with a bar, and the pieces behind them. */
  datatype Level = Level(alts: seq<Alt>, pieces: seq<Piece>)

  function BarsText(alts: seq<Alt>): seq<Ch> {
    if alts == [] then [] else PiecesText(alts[0].pieces) + ['|' as int] + BarsText(alts[1..])
  }

  function LevelText(l: Level): seq<Ch> {
    BarsText(l.alts) + PiecesText(l.pieces)
  }

  /** The groups are in each other, the innermost last. */
  function OpenText(levels: seq<Level>): seq<Ch> {
    if levels == [] then []
    else LevelText(levels[0]) + if |levels| == 1 then [] else ['(' as int] + OpenText(levels[1..])
  }

  function LevelParens(l: Level): nat {
    AltsParens(l.alts) + PiecesParens(l.pieces)
  }

  /** How many opening parentheses there are. */
  function OpenParens(levels: seq<Level>): nat {
    if levels == [] then 0
    else LevelParens(levels[0]) + if |levels| == 1 then 0 else 1 + OpenParens(levels[1..])
  }

  /** Pieces that are written by the rules. */
  ghost predicate PiecesGood(xs: seq<Piece>, n: nat) {
    PiecesOk(xs) && PiecesSolid(PiecesTree(xs, n))
  }

  ghost predicate BarsGood(alts: seq<Alt>, n: nat) {
    alts != [] ==> PiecesGood(alts[0].pieces, n) && BarsGood(alts[1..], n + PiecesParens(alts[0].pieces))
  }

  ghost predicate LevelGood(l: Level, n: nat) {
    BarsGood(l.alts, n) && PiecesGood(l.pieces, n + AltsParens(l.alts))
  }

  ghost predicate OpenGood(levels: seq<Level>, n: nat) {
    && levels != [] && LevelGood(levels[0], n)
    && (|levels| > 1 ==> OpenGood(levels[1..], n + LevelParens(levels[0]) + 1))
  }

  /** The pattern is written by the rules up to q, where the given groups are open. */
  ghost predicate GoodUpTo(p: seq<Ch>, levels: seq<Level>, q: nat) {
    && OpenGood(levels, 1) && OpenParens(levels) <= 9 && Reads(p, 0, OpenText(levels)) && q == |OpenText(levels)|
    && BehindLast(p, q, levels[|levels| - 1].pieces)
  }

  // ------------------------------------------------------------- going on

  /** What is wrong at q, where the next group has the number n. */
  ghost predicate Stuck(p: seq<Ch>, q: nat, n: nat, inGroup: bool) {
    if AtBranchEnd(p, q) then CharAt(p, q) == if inGroup then 0 else ')' as int else ParsePiece(p, q, n).Reject?
  }

  lemma BarsParts(p: seq<Ch>, pos: nat, n: nat, alts: seq<Alt>)
    requires alts != [] && BarsGood(alts, n) && Reads(p, pos, BarsText(alts))
    ensures var xs, q := alts[0].pieces, pos + |PiecesText(alts[0].pieces)|;
            && PiecesGood(xs, n) && Reads(p, pos, PiecesText(xs)) && Ends(p, q) && CharAt(p, q) == '|' as int
            && Reads(p, q + 1, BarsText(alts[1..])) && BarsGood(alts[1..], n + PiecesParens(xs))
            && |BarsText(alts)| == q + 1 - pos + |BarsText(alts[1..])| && AltsParens(alts) == PiecesParens(xs) + AltsParens(alts[1..])
  {
    hide Reads, PiecesText, PiecesGood, PiecesParens;
    var t := PiecesText(alts[0].pieces);
    ReadsAll(p, pos, t, ['|' as int], BarsText(alts[1..]));
    First(p, pos + |t|, ['|' as int]);
  }

  lemma NoBars()
    ensures BarsText([]) == [] && AltsParens([]) == 0
  {
  }

  /** Alternatives with their bars. */
  lemma {:induction false} BarsPass(p: seq<Ch>, pos: nat, n: nat, alts: seq<Alt>, bs: seq<Branch>) returns (more: seq<Branch>)
    requires BarsGood(alts, n) && Reads(p, pos, BarsText(alts)) && 1 <= n && n + AltsParens(alts) <= 10
    ensures ParseAlts(p, pos, n, bs) == ParseAlts(p, pos + |BarsText(alts)|, n + AltsParens(alts), more)
    decreases |alts|
  {
    hide *;
    if alts == [] {
      NoBars();
      more := bs;
    } else {
      var xs := alts[0].pieces;
      BarsParts(p, pos, n, alts);
      GoodPieces(xs, n);
      PiecesParse(p, pos, n, xs, []);
      AltPass(p, pos, n, xs, bs);
      more := BarsPass(p, pos + |PiecesText(xs)| + 1, n + PiecesParens(xs), alts[1..], bs + [Branch(PiecesTree(xs, n))]);
    }
  }

  lemma GoodPieces(xs: seq<Piece>, n: nat)
    requires PiecesGood(xs, n)
    ensures PiecesOk(xs) && PiecesSolid(PiecesTree(xs, n))
  {
  }

  /** Where a level ends in something wrong, its alternatives are refused or end there. */
  lemma LevelStuck(p: seq<Ch>, pos: nat, n: nat, l: Level, inGroup: bool)
    requires LevelGood(l, n) && Reads(p, pos, LevelText(l)) && 1 <= n && n + LevelParens(l) <= 10
    requires var q := pos + |LevelText(l)|; BehindLast(p, q, l.pieces) && Stuck(p, q, n + LevelParens(l), inGroup)
    ensures var a := ParseAlts(p, pos, n, []); a.Reject? || CharAt(p, a.pos) == if inGroup then 0 else ')' as int
  {
    hide BarsText, PiecesText, BarsGood, PiecesOk, PiecesSolid, PiecesTree, AltsParens, PiecesParens, Reads, ParseAlts, ParseBranch, ParsePiece, BehindLast;
    ReadsBoth(p, pos, BarsText(l.alts), PiecesText(l.pieces));
    var at, m := pos + |BarsText(l.alts)|, n + AltsParens(l.alts);
    var q, k := at + |PiecesText(l.pieces)|, m + PiecesParens(l.pieces);
    var bs := BarsPass(p, pos, n, l.alts, []);
    PiecesPass(p, at, m, l.pieces, []);
    BranchUnfold(p, q, k, [] + PiecesTree(l.pieces, m));
    AltsUnfold(p, at, m, bs);
  }

  /** Something wrong in the innermost group makes the outer ones wrong as well. */
  lemma {:induction false} OpenStuck(p: seq<Ch>, pos: nat, n: nat, levels: seq<Level>, inGroup: bool)
    requires OpenGood(levels, n) && Reads(p, pos, OpenText(levels)) && 1 <= n && n + OpenParens(levels) <= 10
    requires var q := pos + |OpenText(levels)|;
             BehindLast(p, q, levels[|levels| - 1].pieces) && Stuck(p, q, n + OpenParens(levels), inGroup || |levels| > 1)
    ensures var a := ParseAlts(p, pos, n, []); a.Reject? || CharAt(p, a.pos) == if inGroup then 0 else ')' as int
    decreases |levels|
  {
    hide LevelText, LevelGood, LevelParens, Reads, ParseAlts, Stuck, BehindLast;
    if |levels| == 1 {
      assert LevelText(levels[0]) + [] == LevelText(levels[0]);
      LevelStuck(p, pos, n, levels[0], inGroup);
    } else {
      var l, more := levels[0], levels[1..];
      var q, m := pos + |LevelText(l)|, n + LevelParens(l);
      ReadsBoth(p, pos, LevelText(l), ['(' as int] + OpenText(more));
      ReadsBoth(p, q, ['(' as int], OpenText(more));
      OpenStuck(p, q + 1, m + 1, more, true);
      First(p, q, ['(' as int]);
      GroupStuck(p, q, m);
      AtParen(p, q, l.pieces);
      LevelStuck(p, pos, n, l, inGroup);
    }
  }

  lemma AtParen(p: seq<Ch>, q: nat, xs: seq<Piece>)
    requires CharAt(p, q) == '(' as int
    ensures BehindLast(p, q, xs) && !AtBranchEnd(p, q)
  {
  }

  lemma GroupStuck(p: seq<Ch>, q: nat, n: nat)
    requires CharAt(p, q) == '(' as int
    requires var a := ParseAlts(p, q + 1, n + 1, []); a.Reject? || CharAt(p, a.pos) == 0
    ensures ParsePiece(p, q, n).Reject? && forall inGroup :: Stuck(p, q, n, inGroup)
  {
    hide ParseAlts, LitLength, ParseBracket;
    assert ParseReg(p, q + 1, n, true).Reject?;
    assert ParseAtom(p, q, n) == ParseGroup(p, q + 1, n);
  }

  lemma Refused(p: seq<Ch>, levels: seq<Level>, q: nat)
    requires GoodUpTo(p, levels, q) && Stuck(p, q, 1 + OpenParens(levels), |levels| > 1)
    ensures ParsePattern(p).Reject?
  {
    hide ParseAlts, OpenGood, OpenParens, OpenText, BehindLast, Stuck;
    OpenStuck(p, 0, 1, levels, false);
  }

  // -------------------------------------------------------- what is refused

  /** A sign that is first in an alternative. */
  lemma SignRefused(p: seq<Ch>, levels: seq<Level>, q: nat)
    requires GoodUpTo(p, levels, q) && IsSign(CharAt(p, q))
    ensures ParsePattern(p).Reject?
  {
    hide GoodUpTo, ParsePattern;
    assert ParseAtom(p, q, 1 + OpenParens(levels)).Reject?;
    Refused(p, levels, q);
  }

  /** A backslash at the end of the pattern. */
  lemma BackslashRefused(p: seq<Ch>, levels: seq<Level>, q: nat)
    requires GoodUpTo(p, levels, q) && |p| == q + 1 && p[q] == '\\' as int
    ensures ParsePattern(p).Reject?
  {
    hide GoodUpTo, ParsePattern;
    assert ParseAtom(p, q, 1 + OpenParens(levels)).Reject?;
    Refused(p, levels, q);
  }

  /** A closing parenthesis that closes nothing. */
  lemma ClosingRefused(p: seq<Ch>, levels: seq<Level>, q: nat)
    requires GoodUpTo(p, levels, q) && |levels| == 1 && CharAt(p, q) == ')' as int
    ensures ParsePattern(p).Reject?
  {
    hide GoodUpTo, ParsePattern;
    Refused(p, levels, q);
  }

  /** A group that is not closed. */
  lemma OpenRefused(p: seq<Ch>, levels: seq<Level>, q: nat)
    requires GoodUpTo(p, levels, q) && |levels| > 1 && q == |p|
    ensures ParsePattern(p).Reject?
  {
    hide GoodUpTo, ParsePattern;
    Refused(p, levels, q);
  }

  /** The tenth group. */
  lemma TenthRefused(p: seq<Ch>, levels: seq<Level>, q: nat)
    requires GoodUpTo(p, levels, q) && OpenParens(levels) == 9 && CharAt(p, q) == '(' as int
    ensures ParsePattern(p).Reject?
  {
    hide GoodUpTo, ParsePattern, ParseAlts;
    assert ParseAtom(p, q, 10) == ParseGroup(p, q + 1, 10);
    Refused(p, levels, q);
  }

  /** The atom stands at q, and can be read there. */
  ghost predicate AtomAt(p: seq<Ch>, q: nat, a: Atom, n: nat) {
    && AtomOk(a) && Reads(p, q, AtomText(a)) && n + AtomParens(a) <= 10 && Solid(AtomTree(a, n))
    && (a.Word? ==> |a.cs| == 1)
  }

  /** A sign behind a sign. */
  lemma DoubledRefused(p: seq<Ch>, levels: seq<Level>, q: nat, a: Atom)
    requires GoodUpTo(p, levels, q) && AtomAt(p, q, a, 1 + OpenParens(levels))
    requires var z := q + |AtomText(a)|; IsSign(CharAt(p, z)) && IsSign(CharAt(p, z + 1))
    ensures ParsePattern(p).Reject?
  {
    var n := 1 + OpenParens(levels);
    hide GoodUpTo, ParsePattern, ParseAtom, AtomText, AtomOk, AtomTree, AtomParens, Solid, Reads, Match, OpenParens;
    AtomStarts(p, q, a);
    WordText(a);
    AtomParses(p, q, n, a);
    hide AtomAt;
    Refused(p, levels, q);
  }

  /** * or + behind what may be empty. */
  lemma EmptyRefused(p: seq<Ch>, levels: seq<Level>, q: nat, a: Atom)
    requires GoodUpTo(p, levels, q) && AtomAt(p, q, a, 1 + OpenParens(levels))
    requires Match(AtomTree(a, 1 + OpenParens(levels)), [], 0, 0)
    requires var c := CharAt(p, q + |AtomText(a)|); c == '*' as int || c == '+' as int
    ensures ParsePattern(p).Reject?
  {
    var n := 1 + OpenParens(levels);
    hide GoodUpTo, ParsePattern, ParseAtom, AtomText, AtomOk, AtomTree, AtomParens, Solid, Reads, Match, OpenParens;
    AtomStarts(p, q, a);
    WordText(a);
    AtomParses(p, q, n, a);
    AtomSound(p, q, n);
    WidthMeans(AtomTree(a, n));
    hide AtomAt, Width, Sound;
    Refused(p, levels, q);
  }

  lemma AtomStarts(p: seq<Ch>, q: nat, a: Atom)
    requires AtomOk(a) && Reads(p, q, AtomText(a))
    ensures !AtBranchEnd(p, q)
  {
    PieceBegins(Piece(a, Once));
    assert PieceText(Piece(a, Once)) == AtomText(a);
    hide AtomText, PieceText, AtomOk;
    First(p, q, AtomText(a));
  }

  /** A bracket expression stands at q, as far as its members go, up to z. */
  predicate ClassUpTo(p: seq<Ch>, q: nat, not: bool, first: Ch, ms: seq<Member>, z: nat) {
    && MembersOk(ms, first) && (first == '^' as int ==> not)
    && (var t := ['[' as int] + (if not then ['^' as int] else []) + [first] + MembersText(ms); Reads(p, q, t) && z == q + |t|)
  }

  lemma ClassStarts(p: seq<Ch>, q: nat, not: bool, first: Ch, ms: seq<Member>, z: nat)
    requires ClassUpTo(p, q, not, first, ms, z)
    ensures var i := if not then q + 2 else q + 1;
            && CharAt(p, q) == '[' as int && (CharAt(p, q + 1) == '^' as int <==> not)
            && i < |p| && p[i] == first && Reads(p, i + 1, MembersText(ms)) && z == i + 1 + |MembersText(ms)| && MembersOk(ms, first)
  {
    hide MembersText, Reads, MembersOk;
    var caret: seq<Ch> := if not then ['^' as int] else [];
    var open: seq<Ch>, one: seq<Ch> := ['[' as int], [first];
    ReadsAll(p, q, open + caret, one, MembersText(ms));
    ReadsBoth(p, q, open, caret);
    First(p, q, open);
    First(p, q + 1 + |caret|, one);
    if not { First(p, q + 1, caret); }
  }

  lemma ClassStuck(p: seq<Ch>, q: nat, not: bool, first: Ch, ms: seq<Member>, z: nat, n: nat)
    requires ClassUpTo(p, q, not, first, ms, z) && DashLast(p, z, ms)
    requires q < z <= |p| && p[z - 1] == Before(ms, first, |ms|) ==> forall cs :: ParseClass(p, z, cs).Reject?
    ensures !AtBranchEnd(p, q) && ParsePiece(p, q, n).Reject?
  {
    hide ClassUpTo, DashLast, MembersText, MembersOk, MembersChars, Reads, ParseClass, ParseGroup, LitLength;
    ClassStarts(p, q, not, first, ms, z);
    var i := if not then q + 2 else q + 1;
    ClassUnfold(p, i, []);
    MembersPass(p, i + 1, ms, [first]);
    assert [] + [p[i]] == [first];
    assert ParseMembers(p, i) == ParseClass(p, i + 1, [first]);
  }

  /** Brackets that are not closed. */
  lemma BracketRefused(p: seq<Ch>, levels: seq<Level>, q: nat, not: bool, first: Ch, ms: seq<Member>)
    requires GoodUpTo(p, levels, q) && ClassUpTo(p, q, not, first, ms, |p|)
    ensures ParsePattern(p).Reject?
  {
    hide GoodUpTo, ParsePattern, ClassUpTo, ParsePiece;
    ClassStuck(p, q, not, first, ms, |p|, 1 + OpenParens(levels));
    Refused(p, levels, q);
  }

  /** Brackets with nothing in them, at the end of the pattern. */
  lemma BareBracketRefused(p: seq<Ch>, levels: seq<Level>, q: nat)
    requires GoodUpTo(p, levels, q) && CharAt(p, q) == '[' as int
    requires |p| == q + 1 || (|p| == q + 2 && p[q + 1] == '^' as int)
    ensures ParsePattern(p).Reject?
  {
    hide GoodUpTo, ParsePattern;
    assert ParseBracket(p, q + 1, 1 + OpenParens(levels)).Reject?;
    assert ParseAtom(p, q, 1 + OpenParens(levels)).Reject?;
    Refused(p, levels, q);
  }

  /** A range that runs backwards. */
  lemma RangeRefused(p: seq<Ch>, levels: seq<Level>, q: nat, not: bool, first: Ch, ms: seq<Member>, z: nat)
    requires GoodUpTo(p, levels, q) && ClassUpTo(p, q, not, first, ms, z) && z + 1 < |p|
    requires p[z] == '-' as int && (ms != [] ==> ms[|ms| - 1] != One('-' as int))
    requires p[z + 1] != ']' as int && p[z + 1] < Before(ms, first, |ms|)
    ensures ParsePattern(p).Reject?
  {
    hide GoodUpTo, ParsePattern, ClassUpTo, ParsePiece;
    ClassStuck(p, q, not, first, ms, z, 1 + OpenParens(levels));
    Refused(p, levels, q);
  }
}
