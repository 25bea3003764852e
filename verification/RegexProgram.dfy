/** Whole programs: what they accept, and what their first and their longest literal tell about
    every match. */
module RegexProgram {
  import opened Ascii
  import opened RegexSyntax
  import opened RegexLang
  import opened RegexCode
  import opened RegexEmit
  import opened RegexCont
  import opened RegexWays
  import opened RegexOrder
  import opened RegexSteps

  /** c is the program of the pattern alts. */
  ghost predicate ProgramOf(c: Code, alts: seq<Branch>) {
    alts != [] && AltsSound(alts) && c == Whole(false, 1, alts) && |c| < 0x8000
  }

  /** All that is to be matched at the start of a program. */
  function Top(alts: seq<Branch>): (k: Cont)
    ensures k.at == 0
  {
    K(0, Alts(alts), Stop(AltsLen(alts)))
  }

  lemma TopPlaced(c: Code, alts: seq<Branch>, i: nat)
    requires ProgramOf(c, alts)
    ensures Placed(c, Top(alts)) && Armed(Top(alts), i) && Opened(Top(alts)) == {}
  {
  }

  /** A program goes through the alternatives. */
  lemma TopOrder(alts: seq<Branch>, s: seq<Ch>, w: Way)
    requires AltsSound(alts)
    ensures Order(Top(alts), s, w) == AltsWays(alts, s, w)
  {
    hide AltsWays, Order;
    var ws := AltsWays(alts, s, w);
    forall v | v in ws ensures v.at <= |s| { AltsWaysRange(alts, s, w, v); }
    OrderFrame(Top(alts), s, w);
    OrderStop(Stop(AltsLen(alts)), s, ws);
  }

  lemma {:induction false} OrderStop(k: Cont, s: seq<Ch>, ws: seq<Way>)
    requires k.Stop? && forall w | w in ws :: w.at <= |s|
    ensures OrderAfter(k, s, ws) == ws
    decreases |ws|
  {
    if ws != [] { OrderStop(k, s, ws[1..]); }
  }

  /** The matcher has a way to succeed exactly if there is a match. */
  lemma AltsWaysSome(alts: seq<Branch>, s: seq<Ch>, w: Way)
    requires AltsSound(alts)
    ensures AltsWays(alts, s, w) != [] <==> MatchesAt(alts, s, w.at)
  {
    hide AltsWays, AltsMatch;
    var ws := AltsWays(alts, s, w);
    if ws != [] {
      ReachBy(ws, ws[0]);
      AltsWaysMatch(alts, s, w, ws[0].at);
    }
    if j: nat :| AltsMatch(alts, s, w.at, j) { AltsWaysMatch(alts, s, w, j); }
  }

  /** The BRANCH node at the start leads to the end exactly if there is only one alternative. */
  lemma OnlyAlternative(c: Code, alts: seq<Branch>)
    requires ProgramOf(c, alts)
    ensures 6 < |c| && c[0] == BRANCH && 0 < Field(c, 0) && Field(c, 0) + 2 < |c| && (c[Field(c, 0)] == END <==> |alts| == 1)
    ensures |alts| == 1 ==> Placed(c, Pieces(3, alts[0].ps, Stop(AltsLen(alts))))
  {
    hide AltsCode, Has, Asm, Pieces, LoopAt, Armed, SeqAsm, Node, Field, SeqLen, AltsLen, AltsSound, Weight;
    TopPlaced(c, alts, 0);
    AltsNode(c, Top(alts));
    FirstChoice(c, Top(alts), 0);
    if |alts| > 1 {
      OtherChoices(c, Top(alts), 0);
      AltsNode(c, K(3 + SeqLen(alts[0].ps), Alts(alts[1..]), Stop(AltsLen(alts))));
    }
  }

  /** Every match of alts passes k. */
  ghost predicate Passes(alts: seq<Branch>, k: Cont) {
    forall s: seq<Ch>, i: nat, j: nat :: AltsMatch(alts, s, i, j) ==> Reaches(k, s)
  }

  ghost predicate Reaches(k: Cont, s: seq<Ch>) {
    exists w: Way :: w.at <= |s| && Order(k, s, w) != []
  }

  lemma PassesFirst(alts: seq<Branch>, s: seq<Ch>, i: nat, j: nat)
    requires |alts| == 1 && AltsSound(alts) && AltsMatch(alts, s, i, j)
    ensures i <= |s| && Order(Pieces(3, alts[0].ps, Stop(AltsLen(alts))), s, Way(i, [])) != []
  {
    hide Order, AltsWays, Pieces, SeqLen;
    var w := Way(i, []);
    AltsMatchRange(alts, s, i, j);
    AltsWaysMatch(alts, s, w, j);
    TopOrder(alts, s, w);
    OrderAlts(s, Top(alts), w);
    OrderNoAlts(s, K(3 + SeqLen(alts[0].ps), Alts(alts[1..]), Stop(AltsLen(alts))), w);
  }

  /** A match of a program that begins with a literal begins with its first character. */
  lemma StartCharacter(c: Code, alts: seq<Branch>)
    requires ProgramOf(c, alts) && |alts| == 1 && c[3] == EXACTLY
    ensures 6 < |c| && forall s: seq<Ch>, i: nat, j: nat :: AltsMatch(alts, s, i, j) ==> CharAt(s, i) == c[6]
  {
    hide AltsCode, Has, Asm, Pieces, SeqAsm, Node, Order, Placed;
    OnlyAlternative(c, alts);
    var k := Pieces(3, alts[0].ps, Stop(AltsLen(alts)));
    LiteralFits(c, k);
    forall s: seq<Ch>, i: nat, j: nat | AltsMatch(alts, s, i, j) ensures CharAt(s, i) == c[6] {
      PassesFirst(alts, s, i, j);
      TopPlaced(c, alts, i);
      FirstChoice(c, Top(alts), i);
      FirstCharacter(c, s, k, Way(i, []));
    }
  }

  /** A match of a program that begins with ^ is at the start of the text. */
  lemma StartAnchor(c: Code, alts: seq<Branch>)
    requires ProgramOf(c, alts) && |alts| == 1 && c[3] == BOL
    ensures forall s: seq<Ch>, i: nat, j: nat :: AltsMatch(alts, s, i, j) ==> i == 0
  {
    hide AltsCode, Has, Asm, Pieces, SeqAsm, Node, Order, Placed, Armed;
    OnlyAlternative(c, alts);
    var k := Pieces(3, alts[0].ps, Stop(AltsLen(alts)));
    forall s: seq<Ch>, i: nat, j: nat | AltsMatch(alts, s, i, j) ensures i == 0 {
      PassesFirst(alts, s, i, j);
      TopPlaced(c, alts, i);
      FirstChoice(c, Top(alts), i);
      AnchorStart(c, s, k, Way(i, []));
    }
  }

  // -------------------------------------------------- literals on the way

  /** The chain of nodes from p leads to t, and meets no literal before it. */
  ghost predicate Bare(c: Code, p: nat, t: nat)
    decreases |c| - p
  {
    p + 2 < |c|
    && (p == t || (c[p] != EXACTLY && c[p] != BACK && Field(c, p) > 0 && Bare(c, p + Field(c, p), t)))
  }

  /** strstr: cs is found in s. */
  predicate Occurs(cs: seq<int>, s: seq<Ch>) {
    exists p | 0 <= p <= |s| - |cs| :: OccursAt(cs, s, p)
  }

  predicate OccursAt(cs: seq<int>, s: seq<Ch>, p: nat) {
    p + |cs| <= |s| && s[p..p + |cs|] == cs
  }

  /** Every text with a match has cs in it. */
  ghost predicate MustHave(alts: seq<Branch>, cs: seq<int>) {
    forall s: seq<Ch>, i: nat, j: nat :: AltsMatch(alts, s, i, j) ==> Occurs(cs, s)
  }

  lemma NoMatch(alts: seq<Branch>, cs: seq<int>, s: seq<Ch>)
    requires MustHave(alts, cs) && !Occurs(cs, s)
    ensures forall i: nat :: !MatchesAt(alts, s, i)
  {
  }

  lemma NoMatchStart(alts: seq<Branch>, ch: int, s: seq<Ch>, i: nat)
    requires (forall t: seq<Ch>, k: nat, j: nat :: AltsMatch(alts, t, k, j) ==> CharAt(t, k) == ch) && CharAt(s, i) != ch
    ensures !MatchesAt(alts, s, i)
  {
  }

  lemma NoMatchLater(alts: seq<Branch>, s: seq<Ch>, i: nat)
    requires (forall t: seq<Ch>, k: nat, j: nat :: AltsMatch(alts, t, k, j) ==> k == 0) && i > 0
    ensures !MatchesAt(alts, s, i)
  {
  }

  lemma NoMatchBeyond(alts: seq<Branch>, s: seq<Ch>, i: nat)
    requires i > |s|
    ensures !MatchesAt(alts, s, i)
  {
    if j: nat :| AltsMatch(alts, s, i, j) { AltsMatchRange(alts, s, i, j); }
  }

  /** strchr: the first place of c from `from` on, or -1. */
  function IndexFrom(s: seq<Ch>, from: nat, c: int): (p: int)
    requires from <= |s|
    ensures p == -1 || (from <= p < |s| && s[p] == c)
    ensures forall q :: from <= q < (if p == -1 then |s| else p) ==> s[q] != c
    decreases |s| - from
  {
    if from == |s| then -1 else if s[from] == c then from else IndexFrom(s, from + 1, c)
  }

  /** Alternatives are passed without meeting a literal. */
  lemma {:induction false} BareAlts(c: Code, k: Cont)
    requires k.K? && k.frame.Alts? && Placed(c, k)
    ensures Bare(c, k.at, k.rest.at)
    decreases if k.K? && k.frame.Alts? then |k.frame.alts| else 0
  {
    hide AltsCode, Has, Asm, SeqAsm, Node;
    AltsNode(c, k);
    var alts := k.frame.alts;
    if alts[1..] != [] {
      var other := K(k.at + 3 + SeqLen(alts[0].ps), Alts(alts[1..]), k.rest);
      OthersPlaced(c, k);
      BareAlts(c, other);
    }
  }

  lemma OthersPlaced(c: Code, k: Cont)
    requires k.K? && k.frame.Alts? && k.frame.alts != [] && k.frame.alts[1..] != [] && Placed(c, k)
    ensures Placed(c, K(k.at + 3 + SeqLen(k.frame.alts[0].ps), Alts(k.frame.alts[1..]), k.rest))
  {
    hide AltsCode, SeqAsm, Has, Node;
    var alts := k.frame.alts;
    AltsParts(c, k.at, alts, |alts|, true);
    assert FrameAt(c, k.at + 3 + SeqLen(alts[0].ps), Alts(alts[1..]), k.rest.at);
  }

  lemma {:induction false} BareJoin(c: Code, p: nat, m: nat, t: nat)
    requires Bare(c, p, m) && Bare(c, m, t)
    ensures Bare(c, p, t)
    decreases |c| - p
  {
    if p != m && p != t { BareJoin(c, p + Field(c, p), m, t); }
  }

  /** A frame that is no literal and no way back is passed without meeting a literal. */
  lemma BareFrame(c: Code, k: Cont)
    requires k.K? && Placed(c, k) && Normal(k) && !k.frame.Back? && !k.frame.PlusBack? && !(k.frame.One? && k.frame.r.Lit?)
    ensures Bare(c, k.at, k.rest.at)
  {
    hide Asm, AltsCode, Has, Node, Field;
    match k.frame
    case Alts(_) => BareAlts(c, k);
    case One(r) =>
      if r.Group? { BareGroup(c, k); }
      else if r.Opt? || (r.Star? && !Simple(r.r)) { BareChoice(c, k); }
      else { BareNode(c, k); }
    case PlusTail(x, _) => BareTail(c, k);
    case _ => BareNode(c, k);
  }

  lemma BareNode(c: Code, k: Cont)
    requires k.K? && Placed(c, k) && Normal(k) && FrameNext(k) == k.rest.at && FrameOp(k.frame) !in {EXACTLY, BACK, BRANCH}
    ensures Bare(c, k.at, k.rest.at)
  {
    hide Asm, AltsCode, Has;
    NodeOfFrame(c, k);
    assert Bare(c, k.rest.at, k.rest.at);
  }

  lemma BareGroup(c: Code, k: Cont)
    requires k.K? && Placed(c, k) && k.frame.One? && k.frame.r.Group?
    ensures Bare(c, k.at, k.rest.at)
  {
    hide Asm, AltsCode, Has, Field;
    NodeOfFrame(c, k);
    var k' := GroupPlaced(c, k);
    BareAlts(c, k');
    BareNode(c, k'.rest);
    BareJoin(c, k'.at, k'.rest.at, k.rest.at);
  }

  lemma BareChoice(c: Code, k: Cont)
    requires k.K? && Placed(c, k) && k.frame.One? && (k.frame.r.Opt? || (k.frame.r.Star? && !Simple(k.frame.r.r)))
    ensures Bare(c, k.at, k.rest.at)
  {
    hide Placed, Bare;
    if k.frame.r.Star? { BareStar(c, k); } else { BareOpt(c, k); }
  }

  lemma BareStar(c: Code, k: Cont)
    requires k.K? && Placed(c, k) && k.frame.One? && k.frame.r.Star? && !Simple(k.frame.r.r)
    ensures Bare(c, k.at, k.rest.at)
  {
    hide Asm, Has, Node, Field, Bare;
    var n, x := Len(k.frame.r.r), k.rest.at - k.at;
    StarParts(c, k.at, k.frame.r.r, x);
    NodeAt(c, k.at, BRANCH, n + 6);
    NodeAt(c, k.at + n + 6, BRANCH, 3);
    NodeAt(c, k.at + n + 9, NOTHING, x - n - 9);
    BareThree(c, k.at, k.at + n + 6, k.rest.at);
  }

  lemma BareOpt(c: Code, k: Cont)
    requires k.K? && Placed(c, k) && k.frame.One? && k.frame.r.Opt?
    ensures Bare(c, k.at, k.rest.at)
  {
    hide Asm, Has, Node, Field, Bare;
    var n, x := Len(k.frame.r.r), k.rest.at - k.at;
    OptParts(c, k.at, k.frame.r.r, x);
    NodeAt(c, k.at, BRANCH, n + 3);
    NodeAt(c, k.at + n + 3, BRANCH, 3);
    NodeAt(c, k.at + n + 6, NOTHING, x - n - 6);
    BareThree(c, k.at, k.at + n + 3, k.rest.at);
  }

  lemma BareTail(c: Code, k: Cont)
    requires k.K? && Placed(c, k) && k.frame.PlusTail?
    ensures Bare(c, k.at, k.rest.at)
  {
    hide Asm, AltsCode, Has, Node;
    var n := Len(k.frame.x);
    PlusParts(c, k.at - n, k.frame.x, k.rest.at - (k.at - n));
    LoopNodes(c, k.at, n);
    NodeAt(c, k.at + 9, NOTHING, k.rest.at - k.at - 9);
    BareThree(c, k.at, k.at + 6, k.rest.at);
  }

  lemma BareThree(c: Code, p: nat, m: nat, t: nat)
    requires p < m && m + 5 < |c| && t + 2 < |c| && m + 3 < t && c[p] == BRANCH && Field(c, p) == m - p
    requires c[m] == BRANCH && Field(c, m) == 3 && c[m + 3] == NOTHING && Field(c, m + 3) == t - m - 3
    ensures Bare(c, p, t)
  {
    assert Bare(c, t, t);
    assert Bare(c, m + 3, t);
    assert Bare(c, m, t);
  }

  // ---------------------------------------------------- the longest literal

  /** No way back in k. */
  predicate Forward(k: Cont)
    decreases k
  {
    k.K? ==> !k.frame.Back? && !k.frame.PlusBack? && Forward(k.rest)
  }

  lemma {:induction false} PiecesForward(at: nat, ps: seq<Re>, rest: Cont)
    requires Forward(rest)
    ensures Forward(Pieces(at, ps, rest))
    decreases |ps|
  {
    if |ps| > 1 { PiecesForward(at + Len(ps[0]), ps[1..], rest); }
  }

  /** A walk along the nodes of a program has come to scan: every match passes k, and no literal
      is met before k. */
  ghost predicate Walking(c: Code, alts: seq<Branch>, scan: nat, k: Cont) {
    Placed(c, k) && Forward(k) && Passes(alts, k) && Bare(c, scan, k.at)
  }

  /** There is a literal at q, on the chain from p. */
  ghost predicate LiteralAt(c: Code, p: nat, q: int) {
    q >= 0 && Chain(c, p, q) && q + 2 < |c| && c[q] == EXACTLY
  }

  /** No literal on the chain from p is longer than the one at `longest`, nor as long and later;
      -1 stands for no literal. Only nodes before `limit` are looked at. */
  ghost predicate LongestBefore(c: Code, p: nat, longest: int, limit: nat) {
    && (longest == -1 || (longest >= 3 && LiteralAt(c, p, longest - 3)))
    && forall q: nat :: LiteralAt(c, p, q) && q < limit ==>
         longest >= 0 && |StrAt(c, q + 3)| <= |StrAt(c, longest)| && (|StrAt(c, q + 3)| == |StrAt(c, longest)| ==> q + 3 <= longest)
  }

  /** The node at scan has been looked at, and the next one is at `next`. */
  lemma LongestStep(c: Code, p: nat, longest: int, scan: nat, longest': int, next: nat)
    requires scan + 2 < |c| && LongestBefore(c, p, longest, scan) && Chain(c, p, scan) && (longest >= 0 ==> longest < scan + 3)
    requires longest' == if c[scan] == EXACTLY && |StrAt(c, scan + 3)| >= (if longest >= 0 then |StrAt(c, longest)| else 0)
                         then scan + 3 else longest
    requires if Field(c, scan) == 0 then next == |c| else c[scan] != BACK && next == scan + Field(c, scan)
    ensures LongestBefore(c, p, longest', next)
  {
    hide StrAt, Field;
    forall q: nat | LiteralAt(c, p, q) && q < next
      ensures longest' >= 0 && |StrAt(c, q + 3)| <= |StrAt(c, longest')|
              && (|StrAt(c, q + 3)| == |StrAt(c, longest')| ==> q + 3 <= longest')
    {
      if q >= scan {
        ChainFrom(c, p, scan, q);
        ChainForward(c, scan, q);
        assert q == scan;
      }
    }
  }

  lemma ChainNext(c: Code, p: nat, scan: nat)
    requires scan + 2 < |c| && Chain(c, p, scan) && Field(c, scan) > 0 && c[scan] != BACK && scan + Field(c, scan) + 2 < |c|
    ensures Chain(c, p, scan + Field(c, scan))
  {
    assert Chain(c, scan + Field(c, scan), scan + Field(c, scan));
    ChainJoin(c, p, scan, scan + Field(c, scan));
  }

  lemma WalkStart(c: Code, alts: seq<Branch>) returns (k: Cont)
    requires ProgramOf(c, alts) && |alts| == 1
    ensures Walking(c, alts, 3, k)
  {
    hide AltsCode, Has, Asm, Pieces, SeqAsm, Node, Order, Placed;
    OnlyAlternative(c, alts);
    k := Pieces(3, alts[0].ps, Stop(AltsLen(alts)));
    PiecesForward(3, alts[0].ps, Stop(AltsLen(alts)));
    PlacedFits(c, k);
    forall s: seq<Ch>, i: nat, j: nat | AltsMatch(alts, s, i, j) ensures Reaches(k, s) { PassesFirst(alts, s, i, j); }
  }

  lemma LongestNone(c: Code, alts: seq<Branch>, k: Cont)
    requires Walking(c, alts, 3, k)
    ensures LongestBefore(c, 3, -1, 3) && Chain(c, 3, 3)
  {
    forall q: nat | LiteralAt(c, 3, q) ensures q >= 3 { ChainForward(c, 3, q); }
  }

  lemma PlacedFits(c: Code, k: Cont)
    requires Placed(c, k)
    ensures k.at + 2 < |c|
  {
  }

  /** Past x, in x+. */
  lemma {:induction false} WalkNormal(c: Code, alts: seq<Branch>, k: Cont) returns (k': Cont)
    requires Placed(c, k) && Forward(k) && Passes(alts, k)
    ensures Normal(k') && k'.at == k.at && Placed(c, k') && Forward(k') && Passes(alts, k')
    decreases Weight(k, 0)
  {
    hide Asm, Has, Placed, Order;
    k' := k;
    if !Normal(k) {
      k' := PlusPlaced(c, k, 0);
      forall s: seq<Ch>, i: nat, j: nat | AltsMatch(alts, s, i, j) ensures Reaches(k', s) {
        var w: Way :| w.at <= |s| && Order(k, s, w) != [];
        SamePlus(s, k, k', w);
      }
      assert Weight(k'.rest, 0) == Weight(k.rest, 0) && Weight(k', 0) < Weight(k, 0);
      k' := WalkNormal(c, alts, k');
    }
  }

  /** Past the first frame of k. */
  lemma PassesRest(c: Code, alts: seq<Branch>, k: Cont)
    requires Placed(c, k) && Passes(alts, k) && k.K?
    ensures Passes(alts, k.rest)
  {
    hide Order, FrameWays, FrameAt, Placed;
    forall s: seq<Ch>, i: nat, j: nat | AltsMatch(alts, s, i, j) ensures Reaches(k.rest, s) {
      var w: Way :| w.at <= |s| && Order(k, s, w) != [];
      OrderFrame(k, s, w);
      var u := OrderSplit(k.rest, s, FrameWays(k.frame, s, w));
      PlacedFrame(c, k);
      FrameRange(c, k.at, k.frame, k.rest.at, s, w, u);
    }
  }

  /** A literal that every match passes. */
  lemma PassesLiteral(alts: seq<Branch>, k: Cont)
    requires Passes(alts, k) && k.K? && k.frame.One? && k.frame.r.Lit?
    ensures MustHave(alts, k.frame.r.cs)
  {
    hide Order;
    var cs := k.frame.r.cs;
    forall s: seq<Ch>, i: nat, j: nat | AltsMatch(alts, s, i, j) ensures Occurs(cs, s) {
      var w: Way :| w.at <= |s| && Order(k, s, w) != [];
      OrderFrame(k, s, w);
      var u := OrderSplit(k.rest, s, FrameWays(k.frame, s, w));
      assert OccursAt(cs, s, w.at);
    }
  }

  /** One node further: a literal that was met is in every text with a match. */
  lemma WalkOn(c: Code, alts: seq<Branch>, scan: nat, k: Cont) returns (k': Cont)
    requires Walking(c, alts, scan, k)
    ensures scan + 2 < |c| && c[scan] != BACK
    ensures c[scan] == EXACTLY ==> scan + 3 < |c| && MustHave(alts, StrAt(c, scan + 3))
    ensures Field(c, scan) > 0 ==> Walking(c, alts, scan + Field(c, scan), k') && scan + Field(c, scan) + 2 < |c|
  {
    hide Asm, AltsCode, Has, Order, Passes, MustHave, StrAt;
    k' := k;
    if scan == k.at {
      var n := WalkNormal(c, alts, k);
      if n.K? {
        k' := n.rest;
        PassesRest(c, alts, n);
        NodeOfFrame(c, n);
        if n.frame.One? && n.frame.r.Lit? {
          WalkLiteral(c, alts, n);
        } else {
          BareFrame(c, n);
        }
      }
    }
  }

  lemma WalkLiteral(c: Code, alts: seq<Branch>, k: Cont)
    requires Placed(c, k) && Passes(alts, k) && k.K? && k.frame.One? && k.frame.r.Lit?
    ensures k.at + 3 < |c| && MustHave(alts, StrAt(c, k.at + 3)) && Field(c, k.at) == k.rest.at - k.at
  {
    hide Asm, Has, MustHave, StrAt;
    NodeOfFrame(c, k);
    OperandAt(c, k.at, k.frame.r, k.rest.at - k.at);
    LiteralFits(c, k);
    PassesLiteral(alts, k);
    assert StrAt(c, k.at + 3) == k.frame.r.cs;
  }
}
