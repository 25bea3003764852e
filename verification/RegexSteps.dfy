/** The steps of the matcher: each leads to a state with the same ways to succeed, or offers
    choices whose ways, one after the other, are those of the state. */
module RegexSteps {
  import opened Ascii
  import opened RegexSyntax
  import opened RegexLang
  import opened RegexWays
  import opened RegexCode
  import opened RegexCont
  import opened RegexOrder

  // ---------------------------------------------------------------- steps

  /** At w, k can be replaced by k' at w', which is nearer to a character or the end. */
  ghost predicate Step(c: Code, s: seq<Ch>, k: Cont, w: Way, k': Cont, w': Way) {
    w'.at == w.at && Placed(c, k') && Armed(k', w.at) && Weight(k', w.at) < Weight(k, w.at) && Same(s, k, w, k', w')
  }

  lemma StepSkip(c: Code, s: seq<Ch>, k: Cont, w: Way)
    requires k.K? && k.frame.Skip? && Placed(c, k) && Armed(k, w.at) && w.at <= |s|
    ensures Step(c, s, k, w, k.rest, w)
  {
    OrderOne(k.rest, s, w);
  }

  /** A group ends. */
  lemma StepShut(c: Code, s: seq<Ch>, k: Cont, w: Way)
    requires k.K? && k.frame.Shut? && Placed(c, k) && Armed(k, w.at) && w.at <= |s|
    ensures Step(c, s, k, w, k.rest, Marked(w, false, k.frame.no))
  {
    OrderOne(k.rest, s, Marked(w, false, k.frame.no));
  }

  /** A group begins. */
  lemma StepGroup(c: Code, s: seq<Ch>, k: Cont, w: Way) returns (k': Cont)
    requires k.K? && k.frame.One? && k.frame.r.Group? && Placed(c, k) && Armed(k, w.at) && w.at <= |s|
    ensures k' == K(k.at + 3, Alts(k.frame.r.alts), K(k.at + 3 + AltsLen(k.frame.r.alts), Shut(k.frame.r.no), k.rest))
    ensures Step(c, s, k, w, k', Marked(w, true, k.frame.r.no))
  {
    hide Asm, AltsCode, Has, Order;
    k' := GroupPlaced(c, k);
    hide Placed;
    GroupLighter(k, k', w.at);
    SameGroup(s, k, k', w);
  }

  lemma GroupLighter(k: Cont, k': Cont, i: nat)
    requires k.K? && k.frame.One? && k.frame.r.Group? && Armed(k, i)
    requires k'.K? && k'.frame == Alts(k.frame.r.alts) && k'.rest.K? && k'.rest.frame.Shut? && k'.rest.rest == k.rest
    ensures Armed(k', i) && Weight(k', i) < Weight(k, i)
  {
    assert Len(k.frame.r) == 6 + AltsLen(k.frame.r.alts) && Width(k.frame.r) == AltsWidth(k.frame.r.alts);
    assert Weight(k'.rest, i) == 3 + Weight(k.rest, i);
  }

  /** The end of a round of x*. */
  lemma StepBack(c: Code, s: seq<Ch>, k: Cont, w: Way) returns (k': Cont)
    requires k.K? && k.frame.Back? && Placed(c, k) && Armed(k, w.at) && w.at <= |s|
    ensures k.at >= 3 + Len(k.frame.x) && k' == K(k.at - 3 - Len(k.frame.x), One(Star(k.frame.x)), k.rest)
    ensures Step(c, s, k, w, k', w)
  {
    hide Asm, Has, Rounds;
    k' := K(k.at - 3 - Len(k.frame.x), One(Star(k.frame.x)), k.rest);
    StarWays(k.frame.x, s, w);
    SameFrame(s, k, k', w);
  }

  lemma StarWays(x: Re, s: seq<Ch>, w: Way)
    ensures Ways(Star(x), s, w) == Rounds(x, s, w)
  {
  }

  /** The end of a round of x+ when there is to be another. */
  lemma StepPlusBack(c: Code, s: seq<Ch>, k: Cont, w: Way) returns (k': Cont)
    requires k.K? && k.frame.PlusBack? && Placed(c, k) && Armed(k, w.at) && w.at <= |s|
    ensures k.at >= 3 + Len(k.frame.x) && k' == K(k.at - 3 - Len(k.frame.x), One(Plus(k.frame.x)), k.rest)
    ensures Step(c, s, k, w, k', w)
  {
    hide Asm, Has, Ways;
    k' := K(k.at - 3 - Len(k.frame.x), One(Plus(k.frame.x)), k.rest);
    SameFrame(s, k, k', w);
  }

  /** x+ begins with x, whose code is at the same place. */
  lemma StepPlus(c: Code, s: seq<Ch>, k: Cont, w: Way) returns (k': Cont)
    requires k.K? && k.frame.One? && k.frame.r.Plus? && !Simple(k.frame.r.r) && Placed(c, k) && Armed(k, w.at) && w.at <= |s|
    ensures k' == K(k.at, One(k.frame.r.r), K(k.at + Len(k.frame.r.r), PlusTail(k.frame.r.r, w.at), k.rest))
    ensures Step(c, s, k, w, k', w)
  {
    hide Asm, Has, PlusLoop, Order;
    k' := PlusPlaced(c, k, w.at);
    assert Armed(k'.rest, w.at + 1) && Armed(k', w.at);
    assert Weight(k', w.at) < Weight(k, w.at);
    SamePlus(s, k, k', w);
  }

  /** The frame of the node that comes next. */
  lemma {:induction false} Normalize(c: Code, s: seq<Ch>, k: Cont, w: Way) returns (k': Cont)
    requires Placed(c, k) && Armed(k, w.at) && w.at <= |s|
    ensures Normal(k') && k'.at == k.at && Placed(c, k') && Armed(k', w.at) && Weight(k', w.at) <= Weight(k, w.at)
    ensures Opened(k') == Opened(k) && Same(s, k, w, k', w)
    decreases Weight(k, w.at)
  {
    hide Placed, Armed, Order;
    k' := k;
    if !Normal(k) {
      k' := StepPlus(c, s, k, w);
      assert Opened(k') == Opened(k);
      hide Opened, Weight;
      k' := Normalize(c, s, k', w);
    }
  }

  // -------------------------------------------------------------- choices

  /** From p on there are as many BRANCH nodes as choices; the operands are the choices. */
  ghost predicate ChoicesAt(c: Code, p: nat, cs: seq<Cont>)
    decreases |cs|
  {
    && p + 2 < |c|
    && if cs == [] then c[p] != BRANCH
       else c[p] == BRANCH && Field(c, p) > 0 && cs[0].at == p + 3 && ChoicesAt(c, p + Field(c, p), cs[1..])
  }

  ghost predicate Nearer(c: Code, k: Cont, i: nat, o: Cont) {
    Placed(c, o) && Armed(o, i) && Weight(o, i) < Weight(k, i) && Opened(o) == Opened(k)
  }

  /** The ways of all the choices, those of the first choice first. */
  function OrderAll(cs: seq<Cont>, s: seq<Ch>, w: Way): seq<Way> {
    if cs == [] then [] else Order(cs[0], s, w) + OrderAll(cs[1..], s, w)
  }

  /** At w, the node of k offers the choices cs, each nearer to a character or the end. */
  ghost predicate Chooses(c: Code, s: seq<Ch>, k: Cont, w: Way, cs: seq<Cont>) {
    && cs != [] && ChoicesAt(c, k.at, cs)
    && (forall q :: 0 <= q < |cs| ==> Nearer(c, k, w.at, cs[q]))
    && Order(k, s, w) == OrderAll(cs, s, w)
  }

  /** One more choice, at the node of k. */
  lemma ChooseCons(c: Code, s: seq<Ch>, k: Cont, w: Way, first: Cont, more: seq<Cont>)
    requires k.at + 2 < |c| && c[k.at] == BRANCH && Field(c, k.at) > 0 && first.at == k.at + 3
    requires ChoicesAt(c, k.at + Field(c, k.at), more)
    requires Nearer(c, k, w.at, first) && forall q :: 0 <= q < |more| ==> Nearer(c, k, w.at, more[q])
    requires Order(k, s, w) == Order(first, s, w) + OrderAll(more, s, w)
    ensures Chooses(c, s, k, w, [first] + more)
  {
    hide Order, OrderAll, Nearer, ChoicesAt, Field;
    ChoicesCons(c, k.at, first, more);
    OrderNext(first, more, s, w);
    forall q | 0 <= q < |more| + 1 ensures Nearer(c, k, w.at, ([first] + more)[q]) {
      if q > 0 { assert ([first] + more)[q] == more[q - 1]; }
    }
  }

  lemma ChoicesCons(c: Code, p: nat, first: Cont, more: seq<Cont>)
    requires p + 2 < |c| && c[p] == BRANCH && Field(c, p) > 0 && first.at == p + 3 && ChoicesAt(c, p + Field(c, p), more)
    ensures ChoicesAt(c, p, [first] + more)
  {
    hide Field;
    assert ([first] + more)[1..] == more;
  }

  /** The first of some alternatives. */
  lemma FirstChoice(c: Code, k: Cont, i: nat)
    requires k.K? && k.frame.Alts? && k.frame.alts != [] && Placed(c, k) && Armed(k, i)
    ensures Nearer(c, k, i, Pieces(k.at + 3, k.frame.alts[0].ps, k.rest)) && SeqSound(k.frame.alts[0].ps)
  {
    hide AltsCode, SeqAsm, Has, Node, Pieces;
    var alts := k.frame.alts;
    AltsParts(c, k.at, alts, |alts|, true);
    ArmedLater(k.rest, if AltsWidth(alts) then i + 1 else i, if SeqWidth(alts[0].ps) then i + 1 else i);
    PiecesPlaced(c, k.at + 3, alts[0].ps, k.rest);
    PiecesArmed(k.at + 3, alts[0].ps, k.rest, i);
    PiecesWeight(k.at + 3, alts[0].ps, k.rest, i);
    PiecesOpened(k.at + 3, alts[0].ps, k.rest);
  }

  /** The others. */
  lemma OtherChoices(c: Code, k: Cont, i: nat)
    requires k.K? && k.frame.Alts? && k.frame.alts != [] && k.frame.alts[1..] != [] && Placed(c, k) && Armed(k, i)
    ensures var other := K(k.at + 3 + SeqLen(k.frame.alts[0].ps), Alts(k.frame.alts[1..]), k.rest);
            Nearer(c, k, i, other) && Placed(c, other) && Armed(other, i)
  {
    hide AltsCode, SeqAsm, Has, Node;
    var alts := k.frame.alts;
    AltsParts(c, k.at, alts, |alts|, true);
    ArmedLater(k.rest, if AltsWidth(alts) then i + 1 else i, if AltsWidth(alts[1..]) then i + 1 else i);
    var other := K(k.at + 3 + SeqLen(alts[0].ps), Alts(alts[1..]), k.rest);
    assert FrameAt(c, other.at, other.frame, k.rest.at);
  }

  lemma NearerStill(c: Code, k: Cont, i: nat, o: Cont, o': Cont)
    requires Nearer(c, k, i, o) && Nearer(c, o, i, o')
    ensures Nearer(c, k, i, o')
  {
  }

  /** The choices of a list of alternatives are the alternatives. */
  lemma {:induction false} ChooseAlts(c: Code, s: seq<Ch>, k: Cont, w: Way) returns (cs: seq<Cont>)
    requires k.K? && k.frame.Alts? && Placed(c, k) && Armed(k, w.at) && w.at <= |s|
    ensures Chooses(c, s, k, w, cs)
    decreases if k.K? && k.frame.Alts? then |k.frame.alts| else 0
  {
    hide Order, OrderAll, Pieces, SeqLen, Placed, Armed, Weight, Field, Nearer, FrameAt, ChoicesAt, SeqSound, Chooses;
    AltsNode(c, k);
    FirstChoice(c, k, w.at);
    OrderAlts(s, k, w);
    ChoicesNone(c, k.at + Field(c, k.at));
    var alts := k.frame.alts;
    var first := Pieces(k.at + 3, alts[0].ps, k.rest);
    var other := K(k.at + 3 + SeqLen(alts[0].ps), Alts(alts[1..]), k.rest);
    var more: seq<Cont> := [];
    if alts[1..] != [] {
      OtherChoices(c, k, w.at);
      more := ChooseAlts(c, s, other, w);
      ChosenAll(c, s, other, w, more);
      forall q | 0 <= q < |more| ensures Nearer(c, k, w.at, more[q]) { NearerStill(c, k, w.at, other, more[q]); }
    } else {
      OrderNoAlts(s, other, w);
      OrderNone(s, w);
    }
    ChooseCons(c, s, k, w, first, more);
    cs := [first] + more;
  }

  lemma ChosenAll(c: Code, s: seq<Ch>, k: Cont, w: Way, cs: seq<Cont>)
    requires Chooses(c, s, k, w, cs)
    ensures ChoicesAt(c, k.at, cs) && Order(k, s, w) == OrderAll(cs, s, w)
    ensures forall q :: 0 <= q < |cs| ==> Nearer(c, k, w.at, cs[q])
  {
  }

  lemma ChoicesNone(c: Code, p: nat)
    ensures p + 2 < |c| && c[p] != BRANCH ==> ChoicesAt(c, p, [])
  {
  }

  lemma OrderNone(s: seq<Ch>, w: Way)
    ensures OrderAll([], s, w) == []
  {
  }

  lemma OrderNext(o: Cont, more: seq<Cont>, s: seq<Ch>, w: Way)
    ensures OrderAll([o] + more, s, w) == Order(o, s, w) + OrderAll(more, s, w)
  {
    assert ([o] + more)[1..] == more;
  }

  /** A choice between going on with something and with nothing. */
  lemma ChooseTwo(c: Code, s: seq<Ch>, k: Cont, w: Way, p: nat, first: Cont, none: Cont) returns (cs: seq<Cont>)
    requires k.at + 2 < |c| && c[k.at] == BRANCH && Field(c, k.at) > 0 && p == k.at + Field(c, k.at) && first.at == k.at + 3
    requires p + 5 < |c| && c[p] == BRANCH && Field(c, p) == 3 && c[p + 3] != BRANCH && none.at == p + 3
    requires Nearer(c, k, w.at, first) && Nearer(c, k, w.at, none)
    requires Order(k, s, w) == Order(first, s, w) + Order(none, s, w)
    ensures Chooses(c, s, k, w, cs)
  {
    hide Order, Nearer, Field;
    assert ChoicesAt(c, p + 3, []);
    assert [none][1..] == [];
    assert ChoicesAt(c, p, [none]);
    assert OrderAll([none], s, w) == Order(none, s, w) + OrderAll([], s, w);
    ChooseCons(c, s, k, w, first, [none]);
    cs := [first] + [none];
  }

  /** The two choices of x*. */
  lemma ChooseStar(c: Code, s: seq<Ch>, k: Cont, w: Way) returns (cs: seq<Cont>)
    requires k.K? && k.frame.One? && k.frame.r.Star? && !Simple(k.frame.r.r) && Placed(c, k) && Armed(k, w.at) && w.at <= |s|
    ensures Chooses(c, s, k, w, cs)
  {
    hide Asm, Has, Node, Order, Chooses, Field, Nearer, Armed;
    var x, n := k.frame.r.r, Len(k.frame.r.r);
    StarParts(c, k.at, x, k.rest.at - k.at);
    NodeAt(c, k.at, BRANCH, n + 6);
    NodeAt(c, k.at + n + 6, BRANCH, 3);
    NodeAt(c, k.at + n + 9, NOTHING, k.rest.at - k.at - n - 9);
    var first := K(k.at + 3, One(x), K(k.at + 3 + n, Back(x, w.at), k.rest));
    var none := K(k.at + n + 9, Skip, k.rest);
    StarNearer(c, k, w.at, first, none);
    OrderStar(s, k, first, none, w);
    cs := ChooseTwo(c, s, k, w, k.at + n + 6, first, none);
  }

  lemma StarNearer(c: Code, k: Cont, i: nat, first: Cont, none: Cont)
    requires k.K? && k.frame.One? && k.frame.r.Star? && !Simple(k.frame.r.r) && Placed(c, k) && Armed(k, i)
    requires first == K(k.at + 3, One(k.frame.r.r), K(k.at + 3 + Len(k.frame.r.r), Back(k.frame.r.r, i), k.rest))
    requires none == K(k.at + Len(k.frame.r.r) + 9, Skip, k.rest)
    ensures Nearer(c, k, i, first) && Nearer(c, k, i, none)
  {
    hide Asm, Has, Node, Field;
    var x, n, back := k.frame.r.r, Len(k.frame.r.r), first.rest;
    StarParts(c, k.at, x, k.rest.at - k.at);
    assert FrameAt(c, back.at, back.frame, k.rest.at) && Placed(c, back);
    assert FrameAt(c, first.at, first.frame, back.at) && Placed(c, first);
    assert FrameAt(c, none.at, none.frame, k.rest.at) && Placed(c, none);
    assert Width(x);
    hide Placed, FrameAt;
    StarLighter(k, i, first, none);
  }

  lemma StarLighter(k: Cont, i: nat, first: Cont, none: Cont)
    requires k.K? && k.frame.One? && k.frame.r.Star? && !Simple(k.frame.r.r) && Width(k.frame.r.r) && Armed(k, i)
    requires first.K? && first.frame == One(k.frame.r.r) && first.rest.K? && first.rest.frame == Back(k.frame.r.r, i)
    requires first.rest.rest == k.rest && none.K? && none.frame == Skip && none.rest == k.rest
    ensures Armed(first, i) && Armed(none, i) && Opened(first) == Opened(none) == Opened(k)
    ensures Weight(first, i) < Weight(k, i) && Weight(none, i) < Weight(k, i)
  {
    ArmedLater(k.rest, i, i + 1);
    assert Armed(first.rest, i + 1);
    assert Len(k.frame.r) == 12 + Len(k.frame.r.r);
    assert Opened(first.rest) == Opened(k.rest);
  }

  /** The two choices of x?. */
  lemma ChooseOpt(c: Code, s: seq<Ch>, k: Cont, w: Way) returns (cs: seq<Cont>)
    requires k.K? && k.frame.One? && k.frame.r.Opt? && Placed(c, k) && Armed(k, w.at) && w.at <= |s|
    ensures Chooses(c, s, k, w, cs)
  {
    hide Asm, Has, Node, Order, Chooses, Field;
    var x, n, i := k.frame.r.r, Len(k.frame.r.r), w.at;
    OptParts(c, k.at, x, k.rest.at - k.at);
    NodeAt(c, k.at, BRANCH, n + 3);
    NodeAt(c, k.at + n + 3, BRANCH, 3);
    NodeAt(c, k.at + n + 6, NOTHING, k.rest.at - k.at - n - 6);
    var none := K(k.at + n + 6, Skip, k.rest);
    var first := K(k.at + 3, One(x), none);
    ArmedLater(k.rest, i, i + 1);
    assert FrameAt(c, none.at, none.frame, k.rest.at) && Placed(c, none);
    assert FrameAt(c, first.at, first.frame, none.at) && Placed(c, first);
    assert !Wide(k.frame) && Armed(none, i) && Armed(none, i + 1);
    assert Weight(first, i) == n + 3 + Weight(k.rest, i) && Weight(k, i) == n + 9 + Weight(k.rest, i);
    assert Armed(first, i) && Opened(first) == Opened(k.rest) == Opened(none);
    OrderOpt(s, k, first, none, w);
    cs := ChooseTwo(c, s, k, w, k.at + n + 3, first, none);
  }

  /** The two choices after x in x+. */
  lemma ChoosePlusTail(c: Code, s: seq<Ch>, k: Cont, w: Way) returns (cs: seq<Cont>)
    requires k.K? && k.frame.PlusTail? && Placed(c, k) && Armed(k, w.at) && w.at <= |s|
    ensures Chooses(c, s, k, w, cs)
  {
    hide Asm, Has, Node, Order, Chooses, Field;
    var x, n := k.frame.x, Len(k.frame.x);
    PlusParts(c, k.at - n, x, k.rest.at - (k.at - n));
    LoopNodes(c, k.at, n);
    NodeAt(c, k.at + 9, NOTHING, k.rest.at - k.at - 9);
    var first := K(k.at + 3, PlusBack(x, k.frame.i0), k.rest);
    var none := K(k.at + 9, Skip, k.rest);
    ArmedLater(k.rest, w.at, w.at + 1);
    assert FrameAt(c, first.at, first.frame, k.rest.at) && Placed(c, first);
    assert FrameAt(c, none.at, none.frame, k.rest.at) && Placed(c, none);
    assert Opened(first) == Opened(k.rest) == Opened(none);
    OrderPlusTail(s, k, first, none, w);
    cs := ChooseTwo(c, s, k, w, k.at + 6, first, none);
  }

  /** The choices of a node that is a BRANCH. */
  lemma Choices(c: Code, s: seq<Ch>, k: Cont, w: Way) returns (cs: seq<Cont>)
    requires Placed(c, k) && Normal(k) && Armed(k, w.at) && w.at <= |s| && c[k.at] == BRANCH
    ensures Chooses(c, s, k, w, cs)
  {
    hide Asm, AltsCode, Has, Node, Field, Order, Chooses;
    NodeOfFrame(c, k);
    match k.frame
    case One(r) => if r.Star? { cs := ChooseStar(c, s, k, w); } else { cs := ChooseOpt(c, s, k, w); }
    case Alts(alts) => cs := ChooseAlts(c, s, k, w);
    case PlusTail(x, _) => cs := ChoosePlusTail(c, s, k, w);
  }

  /** What begins with a literal node begins with its first character. */
  lemma FirstCharacter(c: Code, s: seq<Ch>, k: Cont, w: Way)
    requires Placed(c, k) && Armed(k, w.at) && w.at <= |s| && c[k.at] == EXACTLY && Order(k, s, w) != []
    ensures k.at + 3 < |c| && c[k.at + 3] != 0 && CharAt(s, w.at) == c[k.at + 3]
  {
    hide Order, Placed, Armed, Normal;
    var k' := Normalize(c, s, k, w);
    LiteralStart(c, s, k', w);
  }

  lemma LiteralStart(c: Code, s: seq<Ch>, k: Cont, w: Way)
    requires Placed(c, k) && Normal(k) && w.at <= |s| && c[k.at] == EXACTLY && Order(k, s, w) != []
    ensures k.at + 3 < |c| && c[k.at + 3] != 0 && CharAt(s, w.at) == c[k.at + 3]
  {
    LiteralOperand(c, k);
    LiteralWays(k.frame.r.cs, s, w);
    hide Order, OrderAfter, Ways, Placed;
    OrderFrame(k, s, w);
    var u := OrderSplit(k.rest, s, FrameWays(k.frame, s, w));
  }

  /** What begins with the node of ^ begins at the start of the text. */
  lemma AnchorStart(c: Code, s: seq<Ch>, k: Cont, w: Way)
    requires Placed(c, k) && Armed(k, w.at) && w.at <= |s| && c[k.at] == BOL && Order(k, s, w) != []
    ensures w.at == 0
  {
    hide Order, OrderAfter, Placed, Armed, Normal, SingleNode, Field;
    var k' := Normalize(c, s, k, w);
    WhichFrame(c, k');
    PlacedFrame(c, k');
    OrderFrame(k', s, w);
    var u := OrderSplit(k'.rest, s, FrameWays(k'.frame, s, w));
    AnchorOnly(c, k', s, w);
  }

  lemma AnchorOnly(c: Code, k: Cont, s: seq<Ch>, w: Way)
    requires Placed(c, k) && Normal(k) && c[k.at] == BOL && k.K? && k.frame.One? && FrameWays(k.frame, s, w) != []
    ensures w.at == 0
  {
    hide Asm, Has, AltsWays, Rounds;
    NodeOfFrame(c, k);
  }

  lemma LiteralWays(cs: seq<Ch>, s: seq<Ch>, w: Way)
    ensures Ways(Lit(cs), s, w) != [] && cs != [] ==> CharAt(s, w.at) == cs[0]
  {
    if Ways(Lit(cs), s, w) != [] && cs != [] { assert s[w.at..w.at + |cs|][0] == s[w.at]; }
  }
}
