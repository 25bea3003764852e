/** What is left to be matched when the matcher is at some node: a list of frames, each with
    the place of its code, whose exit is the place of the next frame. */
module RegexCont {
  import opened Bytes
  import opened Ascii
  import opened RegexSyntax
  import opened RegexLang
  import opened RegexCode

  /** Back and PlusBack are the BACK nodes of x* and x+, and PlusTail is the choice after x
      in x+; i0 is where the current round of the loop started. */
  datatype Frame =
    | One(r: Re)
    | Alts(alts: seq<Branch>)
    | Shut(no: nat)
    | Skip
    | Back(x: Re, i0: nat)
    | PlusTail(x: Re, i0: nat)
    | PlusBack(x: Re, i0: nat)

  datatype Cont = Stop(at: nat) | K(at: nat, frame: Frame, rest: Cont)

  // ---------------------------------------------------------------- placement

  /** The code of a frame, with its exit. */
  ghost predicate FrameAt(c: Code, at: nat, f: Frame, exit: nat) {
    match f
    case One(r) => Sound(r) && at + Len(r) <= exit && Has(c, at, Asm(r, exit - at))
    case Alts(alts) =>
      alts != [] && AltsSound(alts) && exit == at + AltsLen(alts) && Has(c, at, AltsCode(alts, |alts|, true))
      && exit < |c| && c[exit] != BRANCH
    case Shut(no) => 1 <= no < NSUBEXP && at < exit && Has(c, at, Node(CLOSE + no, exit - at))
    case Skip => at < exit && Has(c, at, Node(NOTHING, exit - at))
    case Back(x, _) => LoopAt(c, at - 3 - Len(x), Star(x), exit)
    case PlusTail(x, _) => LoopAt(c, at - Len(x), Plus(x), exit)
    case PlusBack(x, _) => LoopAt(c, at - Len(x) - 3, Plus(x), exit)
  }

  /** A loop around an x that is not simple. */
  ghost predicate LoopAt(c: Code, at: int, r: Re, exit: nat) {
    && 0 <= at && (r.Star? || r.Plus?) && !Simple(r.r) && Sound(r)
    && at + Len(r) <= exit && Has(c, at, Asm(r, exit - at))
  }

  ghost predicate Placed(c: Code, k: Cont)
    decreases k
  {
    && k.at + 2 < |c| < 0x8000
    && match k
       case Stop(at) => c[at] == END && Field(c, at) == 0
       case K(at, f, rest) => Placed(c, rest) && FrameAt(c, at, f, rest.at)
  }

  lemma PlacedFrame(c: Code, k: Cont)
    requires k.K? && Placed(c, k)
    ensures FrameAt(c, k.at, k.frame, k.rest.at)
  {
  }

  // -------------------------------------------------------------- termination

  /** Frames that take at least one character. */
  predicate Wide(f: Frame) {
    match f
    case One(r) => Width(r)
    case Alts(alts) => AltsWidth(alts)
    case PlusBack(_, _) => true
    case _ => false
  }

  predicate IsLoop(f: Frame) {
    f.Back? || f.PlusTail? || f.PlusBack?
  }

  /** Whoever comes to the end of a round of a loop from i has taken a character since the
      round began. */
  predicate Armed(k: Cont, i: nat)
    decreases k
  {
    match k
    case Stop(_) => true
    case K(_, f, rest) => (IsLoop(f) ==> i > f.i0) && Armed(rest, if Wide(f) then i + 1 else i)
  }

  /** The steps that can be taken from i before a character is, at most. */
  function FrameWeight(f: Frame, i: nat): nat {
    match f
    case One(r) => Len(r)
    case Alts(alts) => AltsLen(alts)
    case Shut(_) => 3
    case Skip => 3
    case Back(x, i0) => if i > i0 then Len(x) + 15 else 0
    case PlusTail(x, i0) => if i > i0 then Len(x) + 21 else 0
    case PlusBack(x, i0) => if i > i0 then Len(x) + 15 else 0
  }

  function Weight(k: Cont, i: nat): nat
    decreases k
  {
    match k
    case Stop(_) => 0
    case K(_, f, rest) => FrameWeight(f, i) + Weight(rest, i)
  }

  /** The groups whose closing node is still to come. */
  function Opened(k: Cont): set<nat>
    decreases k
  {
    match k
    case Stop(_) => {}
    case K(_, f, rest) => if f.Shut? then {f.no} + Opened(rest) else Opened(rest)
  }

  lemma {:induction false} ArmedLater(k: Cont, i: nat, i': nat)
    requires Armed(k, i) && i <= i'
    ensures Armed(k, i')
    decreases k
  {
    if k.K? {
      var more := if Wide(k.frame) then 1 else 0;
      ArmedLater(k.rest, i + more, i' + more);
    }
  }

  // --------------------------------------------------------- parts of a frame

  lemma GroupPlaced(c: Code, k: Cont) returns (k': Cont)
    requires k.K? && k.frame.One? && k.frame.r.Group? && Placed(c, k)
    ensures k' == K(k.at + 3, Alts(k.frame.r.alts), K(k.at + 3 + AltsLen(k.frame.r.alts), Shut(k.frame.r.no), k.rest))
    ensures Placed(c, k') && Placed(c, k'.rest)
  {
    hide Asm, AltsCode, Has;
    var no, alts := k.frame.r.no, k.frame.r.alts;
    var x := k.rest.at - k.at;
    GroupParts(c, k.at, no, alts, x);
    NodeAt(c, k.at + 3 + AltsLen(alts), GroupOp(CLOSE, no), Sub(x, 3 + AltsLen(alts)));
    var shut := K(k.at + 3 + AltsLen(alts), Shut(no), k.rest);
    k' := K(k.at + 3, Alts(alts), shut);
    assert Placed(c, shut);
    assert FrameAt(c, k'.at, k'.frame, shut.at) && Placed(c, k');
  }

  lemma PlusPlaced(c: Code, k: Cont, i0: nat) returns (k': Cont)
    requires k.K? && k.frame.One? && k.frame.r.Plus? && !Simple(k.frame.r.r) && Placed(c, k)
    ensures k' == K(k.at, One(k.frame.r.r), K(k.at + Len(k.frame.r.r), PlusTail(k.frame.r.r, i0), k.rest))
    ensures Placed(c, k')
  {
    hide Asm, Has, PlusLoop;
    var x := k.frame.r.r;
    PlusParts(c, k.at, x, k.rest.at - k.at);
    var tail := K(k.at + Len(x), PlusTail(x, i0), k.rest);
    k' := K(k.at, One(x), tail);
    assert Placed(c, tail);
    assert FrameAt(c, k'.at, k'.frame, tail.at) && Placed(c, k');
  }

  /** The pieces of an alternative, from the place of its code. */
  function Pieces(at: nat, ps: seq<Re>, rest: Cont): (k: Cont)
    ensures k.K? && k.at == at
    decreases |ps|
  {
    if ps == [] then K(at, Skip, rest)
    else if |ps| == 1 then K(at, One(ps[0]), rest)
    else K(at, One(ps[0]), Pieces(at + Len(ps[0]), ps[1..], rest))
  }

  lemma {:induction false} PiecesPlaced(c: Code, at: nat, ps: seq<Re>, rest: Cont)
    requires Placed(c, rest) && SeqSound(ps) && at + SeqLen(ps) <= rest.at && Has(c, at, SeqAsm(ps, rest.at - at))
    ensures Placed(c, Pieces(at, ps, rest))
    decreases |ps|
  {
    hide Asm, Has, AltsSound;
    SeqParts(c, at, ps, rest.at - at);
    if |ps| == 1 { assert SeqLen(ps) == Len(ps[0]); }
    if |ps| > 1 {
      SeqStep(ps, 0);
      PiecesPlaced(c, at + Len(ps[0]), ps[1..], rest);
    }
  }

  lemma {:induction false} PiecesArmed(at: nat, ps: seq<Re>, rest: Cont, i: nat)
    requires Armed(rest, if SeqWidth(ps) then i + 1 else i)
    ensures Armed(Pieces(at, ps, rest), i)
    decreases |ps|
  {
    hide Width;
    if |ps| == 1 {
      assert ps[1..] == [] && SeqWidth(ps) == Width(ps[0]);
    } else if |ps| > 1 {
      var more := if Width(ps[0]) then 1 else 0;
      if Width(ps[0]) { ArmedLater(rest, i + 1, if SeqWidth(ps[1..]) then i + 2 else i + 1); }
      PiecesArmed(at + Len(ps[0]), ps[1..], rest, i + more);
    }
  }

  lemma {:induction false} PiecesOpened(at: nat, ps: seq<Re>, rest: Cont)
    ensures Opened(Pieces(at, ps, rest)) == Opened(rest)
    decreases |ps|
  {
    if |ps| > 1 { PiecesOpened(at + Len(ps[0]), ps[1..], rest); }
  }

  lemma {:induction false} PiecesWeight(at: nat, ps: seq<Re>, rest: Cont, i: nat)
    ensures Weight(Pieces(at, ps, rest), i) == SeqLen(ps) + Weight(rest, i)
    decreases |ps|
  {
    if |ps| > 1 { PiecesWeight(at + Len(ps[0]), ps[1..], rest, i); }
  }

  // --------------------------------------------------------- nodes and frames

  /** Not x+ of an x that is not simple, whose code begins with that of x. */
  predicate Normal(k: Cont) {
    k.K? && k.frame.One? && k.frame.r.Plus? ==> Simple(k.frame.r.r)
  }

  /** The opcode a frame begins with. */
  function FrameOp(f: Frame): Byte {
    match f
    case One(r) => if SingleNode(r) then OpOf(r) else if r.Group? then GroupOp(OPEN, r.no) else BRANCH
    case Alts(_) => BRANCH
    case Shut(no) => GroupOp(CLOSE, no)
    case Skip => NOTHING
    case Back(_, _) => BACK
    case PlusTail(_, _) => BRANCH
    case PlusBack(_, _) => BACK
  }

  /** Where the node of a frame leads. */
  function FrameNext(k: Cont): int
    requires k.K?
  {
    match k.frame
    case One(r) => if r.Group? then k.at + 3 else k.rest.at
    case Back(x, _) => k.at - 3 - Len(x)
    case PlusBack(x, _) => k.at - 3 - Len(x)
    case _ => k.rest.at
  }

  /** The node of k is the one that its frame says. */
  ghost predicate NodeIs(c: Code, k: Cont)
    requires k.K? && k.at + 2 < |c|
  {
    && c[k.at] == FrameOp(k.frame)
    && (FrameOp(k.frame) != BRANCH ==>
          Field(c, k.at) > 0 && FrameNext(k) == if c[k.at] == BACK then k.at - Field(c, k.at) else k.at + Field(c, k.at))
  }

  lemma NodeOfFrame(c: Code, k: Cont)
    requires k.K? && Placed(c, k) && Normal(k)
    ensures NodeIs(c, k)
  {
    hide Asm, AltsCode, Has, Node, Field, LoopAt;
    match k.frame
    case One(r) => NodeOfOne(c, k);
    case Alts(alts) => AltsNode(c, k);
    case Shut(no) => NodeAt(c, k.at, GroupOp(CLOSE, no), k.rest.at - k.at);
    case Skip => NodeAt(c, k.at, NOTHING, k.rest.at - k.at);
    case _ => NodeOfLoop(c, k);
  }

  /** Which frame the node at hand belongs to. */
  lemma WhichFrame(c: Code, k: Cont)
    requires Placed(c, k) && Normal(k)
    ensures c[k.at] == END <==> k.Stop?
    ensures OPEN < c[k.at] < OPEN + NSUBEXP ==> k.K? && k.frame.One? && k.frame.r.Group? && c[k.at] == OPEN + k.frame.r.no
    ensures CLOSE < c[k.at] ==> k.K? && k.frame.Shut? && c[k.at] == CLOSE + k.frame.no < CLOSE + NSUBEXP
    ensures c[k.at] == STAR || c[k.at] == PLUS ==>
              k.K? && k.frame.One? && (if c[k.at] == STAR then k.frame.r.Star? else k.frame.r.Plus?) && Simple(k.frame.r.r)
    ensures c[k.at] in {BOL, EOL, ANY, EXACTLY, ANYOF, ANYBUT} ==>
              k.K? && k.frame.One? && SingleNode(k.frame.r) && !k.frame.r.Star? && !k.frame.r.Plus?
    ensures c[k.at] in {END, BOL, EOL, ANY, EXACTLY, ANYOF, ANYBUT, NOTHING, BACK, BRANCH, STAR, PLUS}
            || OPEN < c[k.at] < OPEN + NSUBEXP || CLOSE < c[k.at]
    ensures k.K? && c[k.at] != BRANCH ==>
              Field(c, k.at) > 0 && FrameNext(k) == if c[k.at] == BACK then k.at - Field(c, k.at) else k.at + Field(c, k.at)
  {
    hide Asm, Has, AltsCode, Field;
    if k.K? { NodeOfFrame(c, k); }
  }

  lemma NodeOfOne(c: Code, k: Cont)
    requires k.K? && k.frame.One? && Placed(c, k) && Normal(k)
    ensures NodeIs(c, k)
  {
    hide Asm, AltsCode, Has, Node, Field;
    var r, x := k.frame.r, k.rest.at - k.at;
    if SingleNode(r) { FirstNode(c, k.at, r, x); } else { LargeNode(c, k.at, r, x); }
  }

  lemma NodeOfLoop(c: Code, k: Cont)
    requires k.K? && IsLoop(k.frame) && Placed(c, k)
    ensures NodeIs(c, k)
  {
    hide NodeIs, Placed;
    match k.frame
    case Back(_, _) => NodeOfBack(c, k);
    case PlusTail(_, _) => NodeOfPlusTail(c, k);
    case PlusBack(_, _) => NodeOfPlusBack(c, k);
  }

  lemma NodeOfBack(c: Code, k: Cont)
    requires k.K? && k.frame.Back? && Placed(c, k)
    ensures NodeIs(c, k)
  {
    hide Asm, AltsCode, Has, Node, Field;
    var n := Len(k.frame.x);
    StarParts(c, k.at - 3 - n, k.frame.x, k.rest.at - (k.at - 3 - n));
    NodeAt(c, k.at, BACK, n + 3);
  }

  lemma NodeOfPlusTail(c: Code, k: Cont)
    requires k.K? && k.frame.PlusTail? && Placed(c, k)
    ensures NodeIs(c, k)
  {
    hide Asm, AltsCode, Has, Node, Field;
    var n := Len(k.frame.x);
    PlusParts(c, k.at - n, k.frame.x, k.rest.at - (k.at - n));
    LoopNodes(c, k.at, n);
  }

  lemma NodeOfPlusBack(c: Code, k: Cont)
    requires k.K? && k.frame.PlusBack? && Placed(c, k)
    ensures NodeIs(c, k)
  {
    hide Asm, AltsCode, Has, Node, Field;
    var n := Len(k.frame.x);
    PlusParts(c, k.at - n - 3, k.frame.x, k.rest.at - (k.at - n - 3));
    LoopBack(c, k.at - 3, n);
  }

  /** The node of some alternatives. */
  lemma AltsNode(c: Code, k: Cont)
    requires k.K? && k.frame.Alts? && Placed(c, k)
    ensures var alts, n := k.frame.alts, SeqLen(k.frame.alts[0].ps);
            && alts != [] && k.at + 2 < |c| && c[k.at] == BRANCH && Field(c, k.at) == 3 + n
            && (alts[1..] == [] ==> k.at + 3 + n == k.rest.at && k.rest.at + 2 < |c| && c[k.rest.at] != BRANCH)
  {
    hide AltsCode, SeqAsm, Has, Node;
    var alts := k.frame.alts;
    AltsParts(c, k.at, alts, |alts|, true);
    NodeAt(c, k.at, BRANCH, 3 + SeqLen(alts[0].ps));
  }

  lemma LoopNodes(c: Code, p: nat, n: nat)
    requires Has(c, p, PlusLoop(n)) && n < 0x8000
    ensures p + 8 < |c| && c[p] == BRANCH && Field(c, p) == 6 && c[p + 6] == BRANCH && Field(c, p + 6) == 3
  {
  }

  lemma LoopBack(c: Code, p: nat, n: nat)
    requires Has(c, p, PlusLoop(n)) && n < 0x8000
    ensures p + 8 < |c| && c[p + 3] == BACK && Field(c, p + 3) == n + 3
  {
  }

  lemma LargeNode(c: Code, p: nat, r: Re, x: nat)
    requires !SingleNode(r) && !r.Plus? && Len(r) <= x < 0x8000 && Has(c, p, Asm(r, x)) && |c| < 0x8000
    ensures p + 2 < |c| && c[p] == if r.Group? then GroupOp(OPEN, r.no) else BRANCH
    ensures r.Group? ==> Field(c, p) == 3
  {
    hide Asm, AltsCode, Has, Node, Field;
    match r
    case Group(no, alts) => GroupParts(c, p, no, alts, x); NodeAt(c, p, GroupOp(OPEN, no), 3);
    case Star(x') => StarParts(c, p, x', x); NodeAt(c, p, BRANCH, Len(x') + 6);
    case Opt(x') => OptParts(c, p, x', x); NodeAt(c, p, BRANCH, Len(x') + 3);
  }

  // -------------------------------------------------------- operands in place

  /** x, one character wide, takes the character ch. */
  predicate Takes(x: Re, ch: Ch) {
    match x
    case Any => true
    case OneOf(cs) => ch in cs
    case NoneOf(cs) => ch !in cs
    case Lit(cs) => cs == [ch]
    case _ => false
  }

  /** strspn and strcspn: how many characters from i on are in cs, or are not. */
  function Span(s: seq<Ch>, i: nat, cs: seq<int>, within: bool): (n: nat)
    requires i <= |s|
    ensures i + n <= |s| && (forall p :: i <= p < i + n ==> (s[p] in cs) == within)
    ensures i + n == |s| || (s[i + n] in cs) != within
    decreases |s| - i
  {
    if i == |s| || (s[i] in cs) != within then 0 else 1 + Span(s, i + 1, cs, within)
  }

  /** The string that starts at p in a program, up to its NUL. */
  function StrAt(c: Code, p: nat): (cs: Code)
    ensures p <= |c| ==> p + |cs| <= |c|
    decreases |c| - p
  {
    if p >= |c| || c[p] == 0 then [] else [c[p]] + StrAt(c, p + 1)
  }

  lemma {:induction false} StrAtChars(c: Code, p: nat, cs: seq<Ch>)
    requires Has(c, p, Chars(cs) + [0])
    ensures StrAt(c, p) == Chars(cs)
    decreases cs
  {
    var operand := Chars(cs) + [0];
    assert c[p] == c[p..p + |operand|][0] == operand[0];
    if cs != [] {
      assert c[p + 1..p + |operand|] == c[p..p + |operand|][1..];
      assert operand[1..] == Chars(cs[1..]) + [0];
      StrAtChars(c, p + 1, cs[1..]);
    }
  }

  /** The node of something with a string as its operand, or with none. */
  lemma OperandAt(c: Code, p: nat, r: Re, x: nat)
    requires SingleNode(r) && !r.Star? && !r.Plus? && (x == 0 || Len(r) <= x < 0x8000) && Has(c, p, Asm(r, x))
    ensures p + 2 < |c| && c[p] == OpOf(r)
    ensures r.Lit? || r.OneOf? || r.NoneOf? ==> StrAt(c, p + 3) == Chars(r.cs)
  {
    FirstNode(c, p, r, x);
    hide Asm, Has, Node, Chars;
    if r.Lit? || r.OneOf? || r.NoneOf? {
      SingleUnfold(r, x);
      HasBoth(c, p, Node(OpOf(r), x), OperandOf(r));
      StrAtChars(c, p + 3, r.cs);
    }
  }

  /** The characters a simple node takes, from its operand. */
  lemma OperandTakes(c: Code, p: nat, x: Re)
    requires Simple(x) && Has(c, p, Asm(x, 0))
    ensures p + 2 < |c| && c[p] == OpOf(x)
    ensures x.Lit? ==> p + 3 < |c| && c[p + 3] != 0 && forall ch :: Takes(x, ch) <==> ch == c[p + 3]
    ensures x.OneOf? ==> forall ch :: Takes(x, ch) <==> ch in StrAt(c, p + 3)
    ensures x.NoneOf? ==> forall ch :: Takes(x, ch) <==> ch !in StrAt(c, p + 3)
  {
    hide Asm, Has;
    OperandAt(c, p, x, 0);
    if x.Lit? {
      assert StrAt(c, p + 3)[0] == x.cs[0];
      assert x.cs == [x.cs[0]];
    } else if x.OneOf? || x.NoneOf? {
      var operand := StrAt(c, p + 3);
      forall ch: Ch ensures ch in x.cs <==> ch in operand {
        if ch in x.cs { var q :| 0 <= q < |x.cs| && x.cs[q] == ch; assert operand[q] == ch; }
      }
    }
  }

  /** The operand of a node for a simple loop. */
  lemma LoopOperand(c: Code, p: nat, r: Re, x: nat)
    requires (r.Star? || r.Plus?) && Simple(r.r) && Len(r) <= x < 0x8000 && Has(c, p, Asm(r, x))
    ensures Has(c, p + 3, Asm(r.r, 0))
  {
    SingleUnfold(r, x);
    hide Asm, Has, Node;
    HasBoth(c, p, Node(OpOf(r), x), OperandOf(r));
  }

  /** A literal node has an operand. */
  lemma LiteralFits(c: Code, k: Cont)
    requires Placed(c, k) && c[k.at] == EXACTLY
    ensures k.at + 3 < |c|
  {
    if k.K? && k.frame.One? {
      HasSize(c, k.at, Asm(k.frame.r, k.rest.at - k.at));
      if Len(k.frame.r) == 3 { NodeOfFrame(c, k); }
    } else if k.K? {
      NodeOfFrame(c, k);
    }
  }

  /** The frame and the operand of a literal node. */
  lemma LiteralOperand(c: Code, k: Cont)
    requires Placed(c, k) && Normal(k) && c[k.at] == EXACTLY
    ensures k.K? && k.frame.One? && k.frame.r.Lit? && k.frame.r.cs != []
    ensures k.at + 3 < |c| && c[k.at + 3] == k.frame.r.cs[0] != 0
  {
    WhichFrame(c, k);
    hide Asm, Has, Field;
    OperandAt(c, k.at, k.frame.r, k.rest.at - k.at);
    assert StrAt(c, k.at + 3)[0] == k.frame.r.cs[0];
  }
}
