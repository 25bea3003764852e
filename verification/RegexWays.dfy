/** The matches of a pattern in the order in which they are preferred, each with the ends of
    the groups that it passes: earlier alternatives come before later ones, and another round
    of a loop before none. */
module RegexWays {
  import opened Ascii
  import opened RegexSyntax
  import opened RegexLang

  /** The start or the end of a group, at some position. */
  datatype Mark = Mark(opening: bool, no: nat, at: nat)

  /** Where a match has got to, and the marks it has passed. */
  datatype Way = Way(at: nat, marks: seq<Mark>)

  function Marked(w: Way, opening: bool, no: nat): Way {
    Way(w.at, w.marks + [Mark(opening, no, w.at)])
  }

  /** The ways to go on from w through r. */
  function Ways(r: Re, s: seq<Ch>, w: Way): seq<Way>
    decreases r, 0, 0, 0, 0
  {
    var i := w.at;
    if i > |s| then [] else
      match r
      case Bol => if i == 0 then [w] else []
      case Eol => if i == |s| then [w] else []
      case Any => if i < |s| then [Way(i + 1, w.marks)] else []
      case OneOf(cs) => if i < |s| && s[i] in cs then [Way(i + 1, w.marks)] else []
      case NoneOf(cs) => if i < |s| && s[i] !in cs then [Way(i + 1, w.marks)] else []
      case Lit(cs) => if i + |cs| <= |s| && s[i..i + |cs|] == cs then [Way(i + |cs|, w.marks)] else []
      case Group(no, alts) => Closed(no, AltsWays(alts, s, Marked(w, true, no)))
      case Star(x) => Rounds(x, s, w)
      case Plus(x) => RoundsAfter(x, s, Ways(x, s, w))
      case Opt(x) => Ways(x, s, w) + [w]
  }

  /** The group ends on each of the ways ws. */
  function Closed(no: nat, ws: seq<Way>): seq<Way> {
    if ws == [] then [] else [Marked(ws[0], false, no)] + Closed(no, ws[1..])
  }

  /** Any number of rounds of x. A round that takes nothing leads nowhere. */
  function Rounds(x: Re, s: seq<Ch>, w: Way): seq<Way>
    decreases x, 1, |s| - w.at, 2, 0
  {
    if w.at > |s| then [] else MoreRounds(x, s, w.at, Ways(x, s, w)) + [w]
  }

  /** Any number of rounds after each of the ways ws through a first one from i. */
  function MoreRounds(x: Re, s: seq<Ch>, i: nat, ws: seq<Way>): seq<Way>
    requires i <= |s|
    decreases x, 1, |s| - i, 1, |ws|
  {
    if ws == [] then []
    else (if i < ws[0].at <= |s| then Rounds(x, s, ws[0]) else []) + MoreRounds(x, s, i, ws[1..])
  }

  /** Any number of rounds after each of ws. */
  function RoundsAfter(x: Re, s: seq<Ch>, ws: seq<Way>): seq<Way>
    decreases x, 2, 0, 0, |ws|
  {
    if ws == [] then [] else Rounds(x, s, ws[0]) + RoundsAfter(x, s, ws[1..])
  }

  function SeqWays(ps: seq<Re>, s: seq<Ch>, w: Way): seq<Way>
    decreases ps, 0, 0, 0, 0
  {
    if w.at > |s| then [] else if ps == [] then [w] else SeqAfter(ps[1..], s, Ways(ps[0], s, w))
  }

  /** The pieces ps after each of the ways ws. */
  function SeqAfter(ps: seq<Re>, s: seq<Ch>, ws: seq<Way>): seq<Way>
    decreases ps, 1, 0, 0, |ws|
  {
    if ws == [] then [] else SeqWays(ps, s, ws[0]) + SeqAfter(ps, s, ws[1..])
  }

  function AltsWays(alts: seq<Branch>, s: seq<Ch>, w: Way): seq<Way>
    decreases alts, 0, 0, 0, 0
  {
    if alts == [] then [] else SeqWays(alts[0].ps, s, w) + AltsWays(alts[1..], s, w)
  }

  // -------------------------------------------------------- what is in them

  lemma {:induction false} InClosed(no: nat, ws: seq<Way>, v: Way)
    ensures v in Closed(no, ws) <==> exists u :: u in ws && v == Marked(u, false, no)
  {
    if ws != [] {
      InClosed(no, ws[1..], v);
      assert ws == [ws[0]] + ws[1..];
    }
  }

  lemma {:induction false} InRoundsAfter(x: Re, s: seq<Ch>, ws: seq<Way>, v: Way)
    ensures v in RoundsAfter(x, s, ws) <==> exists u :: u in ws && v in Rounds(x, s, u)
    decreases |ws|
  {
    hide Rounds;
    if ws != [] {
      InRoundsAfter(x, s, ws[1..], v);
      assert ws == [ws[0]] + ws[1..];
      if u :| u in ws && v in Rounds(x, s, u) { assert u == ws[0] || u in ws[1..]; }
    }
  }

  lemma {:induction false} InSeqAfter(ps: seq<Re>, s: seq<Ch>, ws: seq<Way>, v: Way)
    ensures v in SeqAfter(ps, s, ws) <==> exists u :: u in ws && v in SeqWays(ps, s, u)
    decreases |ws|
  {
    hide SeqWays;
    if ws != [] {
      InSeqAfter(ps, s, ws[1..], v);
      assert ws == [ws[0]] + ws[1..];
      if u :| u in ws && v in SeqWays(ps, s, u) { assert u == ws[0] || u in ws[1..]; }
    }
  }

  /** When no round takes nothing, both ways to go on are the same. */
  lemma {:induction false} SameRounds(x: Re, s: seq<Ch>, i: nat, ws: seq<Way>)
    requires i <= |s| && forall w | w in ws :: i < w.at <= |s|
    ensures MoreRounds(x, s, i, ws) == RoundsAfter(x, s, ws)
    decreases |ws|
  {
    if ws != [] { SameRounds(x, s, i, ws[1..]); }
  }

  /** x*, for an x that has width, is x and x*, or nothing. */
  lemma RoundsUnfold(x: Re, s: seq<Ch>, w: Way)
    requires Width(x) && Sound(x) && w.at <= |s|
    ensures Rounds(x, s, w) == RoundsAfter(x, s, Ways(x, s, w)) + [w]
  {
    var ws := Ways(x, s, w);
    forall v | v in ws ensures w.at < v.at <= |s| { WaysRange(x, s, w, v); }
    SameRounds(x, s, w.at, ws);
  }

  /** Ways end inside the text, and what is flagged as having width takes a character. */
  lemma {:induction false} WaysRange(r: Re, s: seq<Ch>, w: Way, v: Way)
    requires Sound(r) && v in Ways(r, s, w)
    ensures w.at <= v.at <= |s| && (Width(r) ==> w.at < v.at)
    decreases r, 0, 0
  {
    match r
    case Group(no, alts) =>
      InClosed(no, AltsWays(alts, s, Marked(w, true, no)), v);
      var u :| u in AltsWays(alts, s, Marked(w, true, no)) && v == Marked(u, false, no);
      AltsWaysRange(alts, s, Marked(w, true, no), u);
    case Star(x) => RoundsRange(x, s, w, v);
    case Plus(x) =>
      InRoundsAfter(x, s, Ways(x, s, w), v);
      var u :| u in Ways(x, s, w) && v in Rounds(x, s, u);
      WaysRange(x, s, w, u);
      RoundsRange(x, s, u, v);
    case Opt(x) => if v != w { WaysRange(x, s, w, v); }
    case _ =>
  }

  lemma {:induction false} RoundsRange(x: Re, s: seq<Ch>, w: Way, v: Way)
    requires Width(x) && Sound(x) && v in Rounds(x, s, w)
    ensures w.at <= v.at <= |s|
    decreases x, 1, |s| - w.at
  {
    if v != w {
      var ws := Ways(x, s, w);
      forall u | u in ws ensures w.at < u.at <= |s| { WaysRange(x, s, w, u); }
      SameRounds(x, s, w.at, ws);
      InRoundsAfter(x, s, ws, v);
      var u :| u in ws && v in Rounds(x, s, u);
      RoundsRange(x, s, u, v);
    }
  }

  lemma {:induction false} SeqWaysRange(ps: seq<Re>, s: seq<Ch>, w: Way, v: Way)
    requires SeqSound(ps) && v in SeqWays(ps, s, w)
    ensures w.at <= v.at <= |s| && (SeqWidth(ps) ==> w.at < v.at)
    decreases ps, 0, 0
  {
    if ps != [] {
      var ws := Ways(ps[0], s, w);
      InSeqAfter(ps[1..], s, ws, v);
      var u :| u in ws && v in SeqWays(ps[1..], s, u);
      WaysRange(ps[0], s, w, u);
      SeqWaysRange(ps[1..], s, u, v);
    }
  }

  lemma {:induction false} AltsWaysRange(alts: seq<Branch>, s: seq<Ch>, w: Way, v: Way)
    requires AltsSound(alts) && v in AltsWays(alts, s, w)
    ensures w.at <= v.at <= |s| && (AltsWidth(alts) ==> w.at < v.at)
    decreases alts, 0, 0
  {
    if v in SeqWays(alts[0].ps, s, w) {
      SeqWaysRange(alts[0].ps, s, w, v);
    } else {
      AltsWaysRange(alts[1..], s, w, v);
    }
  }

  // ------------------------------------------- they are exactly the matches

  /** One of the ways ws ends at m. */
  predicate Reach(ws: seq<Way>, m: nat) {
    exists v :: v in ws && v.at == m
  }

  lemma ReachBy(ws: seq<Way>, v: Way)
    requires v in ws
    ensures Reach(ws, v.at)
  {
  }

  lemma ReachBoth(ws: seq<Way>, vs: seq<Way>, m: nat)
    ensures Reach(ws + vs, m) <==> Reach(ws, m) || Reach(vs, m)
  {
  }

  /** The ways are the matches. */
  lemma {:induction false} WaysMatch(r: Re, s: seq<Ch>, w: Way, m: nat)
    requires Sound(r)
    ensures Reach(Ways(r, s, w), m) <==> Match(r, s, w.at, m)
    decreases r, 0, 0
  {
    match r
    case Group(no, alts) => GroupMatch(no, alts, s, w, m);
    case Star(x) => RoundsMatchStar(x, s, w, m);
    case Plus(x) => RoundsAfterMatch(x, s, w, m);
    case Opt(x) => WaysMatch(x, s, w, m); if w.at <= |s| { ReachBoth(Ways(x, s, w), [w], m); }
    case _ => NodeMatch(r, s, w, m);
  }

  lemma NodeMatch(r: Re, s: seq<Ch>, w: Way, m: nat)
    requires !r.Group? && !r.Star? && !r.Plus? && !r.Opt?
    ensures Reach(Ways(r, s, w), m) <==> Match(r, s, w.at, m)
  {
    if r.Lit? && w.at <= m <= |s| { assert |s[w.at..m]| == m - w.at; }
    var next := Way(m, w.marks);
    assert Match(r, s, w.at, m) ==> next in Ways(r, s, w);
  }

  lemma {:induction false} GroupMatch(no: nat, alts: seq<Branch>, s: seq<Ch>, w: Way, m: nat)
    requires AltsSound(alts)
    ensures Reach(Ways(Group(no, alts), s, w), m) <==> Match(Group(no, alts), s, w.at, m)
    decreases alts, 1, 0
  {
    var inner := AltsWays(alts, s, Marked(w, true, no));
    AltsWaysMatch(alts, s, Marked(w, true, no), m);
    if AltsMatch(alts, s, w.at, m) {
      AltsMatchRange(alts, s, w.at, m);
      var u :| u in inner && u.at == m;
      InClosed(no, inner, Marked(u, false, no));
    }
    if v :| v in Ways(Group(no, alts), s, w) && v.at == m { InClosed(no, inner, v); }
  }

  /** Rounds of x after a first one. */
  lemma {:induction false} RoundsAfterMatch(x: Re, s: seq<Ch>, w: Way, m: nat)
    requires Width(x) && Sound(x)
    ensures Reach(RoundsAfter(x, s, Ways(x, s, w)), m) <==> Match(Plus(x), s, w.at, m)
    decreases x, 1, |s| - w.at, 0
  {
    hide Rounds, Ways;
    var ws := Ways(x, s, w);
    PlusOnce(x, s, w.at, m);
    if v :| v in RoundsAfter(x, s, ws) && v.at == m {
      InRoundsAfter(x, s, ws, v);
      var u :| u in ws && v in Rounds(x, s, u);
      ReachBy(ws, u);
      WaysMatch(x, s, w, u.at);
      WaysRange(x, s, w, u);
      RoundsMatchStar(x, s, u, m);
      assert Round(x, s, w.at, u.at, m);
    }
    if l: nat :| Round(x, s, w.at, l, m) {
      WaysMatch(x, s, w, l);
      var u :| u in ws && u.at == l;
      WaysRange(x, s, w, u);
      RoundsMatchStar(x, s, u, m);
      var v :| v in Rounds(x, s, u) && v.at == m;
      InRoundsAfter(x, s, ws, v);
    }
  }

  lemma {:induction false} RoundsMatchStar(x: Re, s: seq<Ch>, w: Way, m: nat)
    requires Width(x) && Sound(x)
    ensures Reach(Rounds(x, s, w), m) <==> Match(Star(x), s, w.at, m)
    decreases x, 1, |s| - w.at, 1
  {
    StarOnce(x, s, w.at, m);
    PlusOnce(x, s, w.at, m);
    if w.at <= |s| {
      RoundsUnfold(x, s, w);
      RoundsAfterMatch(x, s, w, m);
      ReachBoth(RoundsAfter(x, s, Ways(x, s, w)), [w], m);
    } else if l: nat :| Round(x, s, w.at, l, m) {
      MatchRange(x, s, w.at, l);
    }
  }

  lemma {:induction false} SeqWaysMatch(ps: seq<Re>, s: seq<Ch>, w: Way, m: nat)
    requires SeqSound(ps)
    ensures Reach(SeqWays(ps, s, w), m) <==> SeqMatch(ps, s, w.at, m)
    decreases ps, 0, 0
  {
    if ps != [] {
      SeqThen(ps, s, w.at, m);
      var ws := Ways(ps[0], s, w);
      if v :| v in SeqWays(ps, s, w) && v.at == m {
        InSeqAfter(ps[1..], s, ws, v);
        var u :| u in ws && v in SeqWays(ps[1..], s, u);
        ReachBy(ws, u);
        WaysMatch(ps[0], s, w, u.at);
        SeqWaysMatch(ps[1..], s, u, m);
        assert Then(ps, s, w.at, u.at, m);
      }
      if l: nat :| Then(ps, s, w.at, l, m) {
        MatchRange(ps[0], s, w.at, l);
        WaysMatch(ps[0], s, w, l);
        var u :| u in ws && u.at == l;
        SeqWaysMatch(ps[1..], s, u, m);
        var v :| v in SeqWays(ps[1..], s, u) && v.at == m;
        InSeqAfter(ps[1..], s, ws, v);
      }
    } else if w.at == m <= |s| {
      ReachBy([w], w);
    }
  }

  lemma {:induction false} AltsWaysMatch(alts: seq<Branch>, s: seq<Ch>, w: Way, m: nat)
    requires AltsSound(alts)
    ensures Reach(AltsWays(alts, s, w), m) <==> AltsMatch(alts, s, w.at, m)
    decreases alts, 0, 0
  {
    if alts != [] {
      SeqWaysMatch(alts[0].ps, s, w, m);
      AltsWaysMatch(alts[1..], s, w, m);
      ReachBoth(SeqWays(alts[0].ps, s, w), AltsWays(alts[1..], s, w), m);
    }
  }
}
