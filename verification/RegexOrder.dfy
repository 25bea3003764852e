/** In which order the frames that are left can be run through: the meaning of a state of the
    matcher, and the states that mean the same. */
module RegexOrder {
  import opened Bytes
  import opened Ascii
  import opened RegexSyntax
  import opened RegexLang
  import opened RegexWays
  import opened RegexCode
  import opened RegexCont

  /** The ways through a frame. */
  function FrameWays(f: Frame, s: seq<Ch>, w: Way): seq<Way> {
    match f
    case One(r) => Ways(r, s, w)
    case Alts(alts) => AltsWays(alts, s, w)
    case Shut(no) => if w.at <= |s| then [Marked(w, false, no)] else []
    case Skip => if w.at <= |s| then [w] else []
    case Back(x, _) => Rounds(x, s, w)
    case PlusTail(x, _) => Rounds(x, s, w)
    case PlusBack(x, _) => Ways(Plus(x), s, w)
  }

  /** The ways through all the frames, one after the other. */
  function Order(k: Cont, s: seq<Ch>, w: Way): seq<Way>
    decreases k, 0
  {
    match k
    case Stop(_) => if w.at <= |s| then [w] else []
    case K(_, f, rest) => OrderAfter(rest, s, FrameWays(f, s, w))
  }

  /** The ways through k after each of the ways ws. */
  function OrderAfter(k: Cont, s: seq<Ch>, ws: seq<Way>): seq<Way>
    decreases k, 1, |ws|
  {
    if ws == [] then [] else Order(k, s, ws[0]) + OrderAfter(k, s, ws[1..])
  }

  /** Two states of the matcher with the same ways to succeed, in the same order. */
  ghost predicate Same(s: seq<Ch>, k: Cont, w: Way, k': Cont, w': Way) {
    Order(k, s, w) == Order(k', s, w')
  }

  /** A frame that is wide takes a character. */
  lemma FrameRange(c: Code, at: nat, f: Frame, exit: nat, s: seq<Ch>, w: Way, v: Way)
    requires FrameAt(c, at, f, exit) && v in FrameWays(f, s, w)
    ensures w.at <= v.at <= |s| && (Wide(f) ==> w.at < v.at)
  {
    hide Asm, AltsCode, Has, Node, Ways, AltsWays, Rounds;
    match f
    case One(r) => WaysRange(r, s, w, v);
    case Alts(alts) => AltsWaysRange(alts, s, w, v);
    case Shut(_) => {}
    case Skip => {}
    case Back(x, _) => RoundsRange(x, s, w, v);
    case PlusTail(x, _) => RoundsRange(x, s, w, v);
    case PlusBack(x, _) => WaysRange(Plus(x), s, w, v);
  }

  lemma ArmedAfter(c: Code, k: Cont, s: seq<Ch>, w: Way, v: Way)
    requires k.K? && Placed(c, k) && Armed(k, w.at) && v in FrameWays(k.frame, s, w)
    ensures w.at <= v.at <= |s| && Armed(k.rest, v.at)
  {
    FrameRange(c, k.at, k.frame, k.rest.at, s, w, v);
    ArmedLater(k.rest, if Wide(k.frame) then w.at + 1 else w.at, v.at);
  }

  // ------------------------------------------------------ one after another

  lemma {:induction false} OrderBoth(k: Cont, s: seq<Ch>, us: seq<Way>, vs: seq<Way>)
    ensures OrderAfter(k, s, us + vs) == OrderAfter(k, s, us) + OrderAfter(k, s, vs)
    decreases |us|
  {
    hide Order;
    if us == [] {
      assert us + vs == vs;
    } else {
      assert (us + vs)[1..] == us[1..] + vs;
      OrderBoth(k, s, us[1..], vs);
      Assoc(Order(k, s, us[0]), OrderAfter(k, s, us[1..]), OrderAfter(k, s, vs));
    }
  }

  lemma OrderOne(k: Cont, s: seq<Ch>, w: Way)
    ensures OrderAfter(k, s, [w]) == Order(k, s, w)
  {
    hide Order;
    assert OrderAfter(k, s, []) == [];
  }

  lemma OrderFrame(k: Cont, s: seq<Ch>, w: Way)
    requires k.K?
    ensures Order(k, s, w) == OrderAfter(k.rest, s, FrameWays(k.frame, s, w))
  {
  }

  lemma OrderFirst(k: Cont, s: seq<Ch>, ws: seq<Way>)
    ensures OrderAfter(k, s, ws) == if ws == [] then [] else Order(k, s, ws[0]) + OrderAfter(k, s, ws[1..])
  {
  }

  /** A success of all the frames begins with one of the first. */
  lemma {:induction false} OrderSplit(k: Cont, s: seq<Ch>, ws: seq<Way>) returns (u: Way)
    requires OrderAfter(k, s, ws) != []
    ensures u in ws && Order(k, s, u) != []
    decreases |ws|
  {
    hide Order;
    if Order(k, s, ws[0]) != [] { u := ws[0]; } else { u := OrderSplit(k, s, ws[1..]); }
  }

  /** The end of a group is passed on every way. */
  lemma {:induction false} OrderShut(k: Cont, s: seq<Ch>, ws: seq<Way>)
    requires k.K? && k.frame.Shut? && forall w | w in ws :: w.at <= |s|
    ensures OrderAfter(k, s, ws) == OrderAfter(k.rest, s, Closed(k.frame.no, ws))
    decreases |ws|
  {
    if ws != [] {
      OrderOne(k.rest, s, Marked(ws[0], false, k.frame.no));
      OrderShut(k, s, ws[1..]);
    }
  }

  lemma {:induction false} OrderSkip(k: Cont, s: seq<Ch>, ws: seq<Way>)
    requires k.K? && k.frame.Skip? && forall w | w in ws :: w.at <= |s|
    ensures OrderAfter(k, s, ws) == OrderAfter(k.rest, s, ws)
    decreases |ws|
  {
    if ws != [] {
      OrderOne(k.rest, s, ws[0]);
      OrderSkip(k, s, ws[1..]);
    }
  }

  /** After every way the rounds of a loop go on. */
  lemma {:induction false} OrderRounds(k: Cont, s: seq<Ch>, ws: seq<Way>)
    requires k.K? && (k.frame.PlusTail? || k.frame.Back?)
    ensures OrderAfter(k, s, ws) == OrderAfter(k.rest, s, RoundsAfter(k.frame.x, s, ws))
    decreases |ws|
  {
    hide Rounds;
    if ws != [] {
      OrderRounds(k, s, ws[1..]);
      OrderBoth(k.rest, s, Rounds(k.frame.x, s, ws[0]), RoundsAfter(k.frame.x, s, ws[1..]));
    }
  }

  // ------------------------------------------------------------ same states

  /** A group begins. */
  lemma SameGroup(s: seq<Ch>, k: Cont, k': Cont, w: Way)
    requires k.K? && k.frame.One? && k.frame.r.Group? && AltsSound(k.frame.r.alts) && w.at <= |s|
    requires k'.K? && k'.frame == Alts(k.frame.r.alts) && k'.rest.K? && k'.rest.frame == Shut(k.frame.r.no) && k'.rest.rest == k.rest
    ensures Same(s, k, w, k', Marked(w, true, k.frame.r.no))
  {
    hide AltsWays, OrderAfter;
    var w' := Marked(w, true, k.frame.r.no);
    var ws := AltsWays(k.frame.r.alts, s, w');
    forall v | v in ws ensures v.at <= |s| { AltsWaysRange(k.frame.r.alts, s, w', v); }
    OrderShut(k'.rest, s, ws);
  }

  lemma SameFrame(s: seq<Ch>, k: Cont, k': Cont, w: Way)
    requires k.K? && k'.K? && k.rest == k'.rest && FrameWays(k.frame, s, w) == FrameWays(k'.frame, s, w)
    ensures Same(s, k, w, k', w)
  {
  }

  /** x+ begins with x. */
  lemma SamePlus(s: seq<Ch>, k: Cont, k': Cont, w: Way)
    requires k.K? && k.frame.One? && k.frame.r.Plus? && w.at <= |s|
    requires k'.K? && k'.frame == One(k.frame.r.r) && k'.rest.K? && k'.rest.frame.PlusTail? && k'.rest.frame.x == k.frame.r.r
    requires k'.rest.rest == k.rest
    ensures Same(s, k, w, k', w)
  {
    hide RoundsAfter, OrderAfter;
    OrderRounds(k'.rest, s, Ways(k.frame.r.r, s, w));
  }

  /** The pieces of an alternative. */
  lemma {:induction false} PiecesOrder(at: nat, ps: seq<Re>, rest: Cont, s: seq<Ch>, w: Way)
    requires SeqSound(ps) && w.at <= |s|
    ensures Order(Pieces(at, ps, rest), s, w) == OrderAfter(rest, s, SeqWays(ps, s, w))
    decreases |ps|, 1, 0
  {
    hide OrderAfter, Ways;
    if |ps| >= 1 {
      var ws := Ways(ps[0], s, w);
      forall v | v in ws ensures v.at <= |s| { WaysRange(ps[0], s, w, v); }
      if |ps| == 1 {
        assert ps[1..] == [];
        SeqAfterNone(s, ws);
      } else {
        PiecesAfter(at + Len(ps[0]), ps[1..], rest, s, ws);
      }
    }
  }

  lemma {:induction false} SeqAfterNone(s: seq<Ch>, ws: seq<Way>)
    requires forall w | w in ws :: w.at <= |s|
    ensures SeqAfter([], s, ws) == ws
    decreases |ws|
  {
    if ws != [] { SeqAfterNone(s, ws[1..]); }
  }

  lemma {:induction false} PiecesAfter(at: nat, ps: seq<Re>, rest: Cont, s: seq<Ch>, ws: seq<Way>)
    requires SeqSound(ps) && forall w | w in ws :: w.at <= |s|
    ensures OrderAfter(Pieces(at, ps, rest), s, ws) == OrderAfter(rest, s, SeqAfter(ps, s, ws))
    decreases |ps|, 2, |ws|
  {
    hide Order, SeqWays, Pieces;
    if ws != [] {
      PiecesOrder(at, ps, rest, s, ws[0]);
      PiecesAfter(at, ps, rest, s, ws[1..]);
      OrderBoth(rest, s, SeqWays(ps, s, ws[0]), SeqAfter(ps, s, ws[1..]));
    }
  }

  // --------------------------------------------------- choices, in order

  /** The pieces of the first alternative, and then the other alternatives. */
  lemma OrderAlts(s: seq<Ch>, k: Cont, w: Way)
    requires k.K? && k.frame.Alts? && k.frame.alts != [] && SeqSound(k.frame.alts[0].ps) && w.at <= |s|
    ensures var alts := k.frame.alts;
            Order(k, s, w) == Order(Pieces(k.at + 3, alts[0].ps, k.rest), s, w)
                              + Order(K(k.at + 3 + SeqLen(alts[0].ps), Alts(alts[1..]), k.rest), s, w)
  {
    hide OrderAfter, SeqWays, Pieces;
    var alts := k.frame.alts;
    PiecesOrder(k.at + 3, alts[0].ps, k.rest, s, w);
    OrderBoth(k.rest, s, SeqWays(alts[0].ps, s, w), AltsWays(alts[1..], s, w));
  }

  lemma OrderNoAlts(s: seq<Ch>, k: Cont, w: Way)
    requires k.K? && k.frame == Alts([])
    ensures Order(k, s, w) == []
  {
  }

  /** Another round of x*, and then none. */
  lemma OrderStar(s: seq<Ch>, k: Cont, first: Cont, none: Cont, w: Way)
    requires k.K? && k.frame.One? && k.frame.r.Star? && Sound(k.frame.r) && w.at <= |s|
    requires first.K? && first.frame == One(k.frame.r.r) && first.rest.K? && first.rest.frame == Back(k.frame.r.r, w.at)
    requires first.rest.rest == k.rest && none.K? && none.frame == Skip && none.rest == k.rest
    ensures Order(k, s, w) == Order(first, s, w) + Order(none, s, w)
  {
    var x := k.frame.r.r;
    var ws := Ways(x, s, w);
    RoundsUnfold(x, s, w);
    hide Rounds, OrderAfter, RoundsAfter;
    OrderRounds(first.rest, s, ws);
    OrderBoth(k.rest, s, RoundsAfter(x, s, ws), [w]);
  }

  /** x, and then nothing. */
  lemma OrderOpt(s: seq<Ch>, k: Cont, first: Cont, none: Cont, w: Way)
    requires k.K? && k.frame.One? && k.frame.r.Opt? && Sound(k.frame.r) && w.at <= |s|
    requires first.K? && first.frame == One(k.frame.r.r) && first.rest == none
    requires none.K? && none.frame == Skip && none.rest == k.rest
    ensures Order(k, s, w) == Order(first, s, w) + Order(none, s, w)
  {
    var x := k.frame.r.r;
    var ws := Ways(x, s, w);
    forall v | v in ws ensures v.at <= |s| { WaysRange(x, s, w, v); }
    OrderSkip(none, s, ws);
    hide OrderAfter;
    OrderBoth(k.rest, s, ws, [w]);
  }

  /** Another round of x+ after the first one, and then none. */
  lemma OrderPlusTail(s: seq<Ch>, k: Cont, first: Cont, none: Cont, w: Way)
    requires k.K? && k.frame.PlusTail? && Sound(Plus(k.frame.x)) && w.at <= |s|
    requires first.K? && first.frame == PlusBack(k.frame.x, k.frame.i0)
    requires first.rest == k.rest && none.K? && none.frame == Skip && none.rest == k.rest
    ensures Order(k, s, w) == Order(first, s, w) + Order(none, s, w)
  {
    var x := k.frame.x;
    RoundsUnfold(x, s, w);
    hide Rounds, OrderAfter, RoundsAfter;
    OrderBoth(k.rest, s, RoundsAfter(x, s, Ways(x, s, w)), [w]);
  }

  // ---------------------------------------------------- one character each

  lemma SimpleWays(x: Re, s: seq<Ch>, w: Way)
    requires Simple(x)
    ensures Ways(x, s, w) == if w.at < |s| && Takes(x, s[w.at]) then [Way(w.at + 1, w.marks)] else []
  {
  }

  /** n is how many times x can be taken from i. */
  ghost predicate Count(x: Re, s: seq<Ch>, i: nat, n: nat) {
    && i + n <= |s| && (forall p :: i <= p < i + n ==> Takes(x, s[p]))
    && (i + n == |s| || !Takes(x, s[i + n]))
  }

  /** n more characters, one less, and so on down to min. */
  function Fewer(w: Way, n: int, min: nat): (ws: seq<Way>)
    decreases n
  {
    if n < min then [] else [Way(w.at + n, w.marks)] + Fewer(w, n - 1, min)
  }

  lemma {:induction false} FewerFrom(w: Way, n: nat)
    ensures Fewer(Way(w.at + 1, w.marks), n, 0) == Fewer(w, n + 1, 1)
    decreases n
  {
    if n > 0 { FewerFrom(w, n - 1); }
  }

  lemma {:induction false} FewerLast(w: Way, n: nat)
    ensures Fewer(w, n, 0) == Fewer(w, n, 1) + [w]
    decreases n
  {
    if n > 0 { FewerLast(w, n - 1); }
  }

  /** A simple x is taken as often as possible first, then less and less often. */
  lemma {:induction false} SimpleRounds(x: Re, s: seq<Ch>, w: Way, n: nat)
    requires Simple(x) && Sound(x) && Count(x, s, w.at, n)
    ensures Rounds(x, s, w) == Fewer(w, n, 0) && Ways(Plus(x), s, w) == Fewer(w, n, 1)
    decreases n
  {
    hide Rounds;
    SimpleWays(x, s, w);
    RoundsUnfold(x, s, w);
    FewerLast(w, n);
    if n > 0 {
      var next := Way(w.at + 1, w.marks);
      SimpleRounds(x, s, next, n - 1);
      FewerFrom(w, n - 1);
      assert RoundsAfter(x, s, [next]) == Rounds(x, s, next) + RoundsAfter(x, s, []);
    }
  }
}
