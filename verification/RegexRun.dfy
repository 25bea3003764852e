/** What the matcher knows while it runs: where it has come from, what is left to be matched,
    and what the groups have caught. */
module RegexRun {
  import opened Ascii
  import opened RegexSyntax
  import opened RegexLang
  import opened RegexCode
  import opened RegexCont
  import opened RegexWays
  import opened RegexOrder
  import opened RegexSteps

  /** A matcher that began with k at w0 has come to k' at w, and nothing is lost: the two
      have the same ways to succeed. */
  ghost predicate Going(c: Code, s: seq<Ch>, k: Cont, w0: Way, k': Cont, w: Way) {
    && w0.at <= w.at <= |s| && w.marks == w0.marks && Placed(c, k') && Armed(k', w.at) && Opened(k') == Opened(k)
    && Same(s, k, w0, k', w)
    && (w.at > w0.at || Weight(k', w.at) <= Weight(k, w0.at))
  }

  lemma GoingStart(c: Code, s: seq<Ch>, k: Cont, w: Way)
    requires w.at <= |s| && Placed(c, k) && Armed(k, w.at)
    ensures Going(c, s, k, w, k, w)
  {
  }

  lemma GoingNormal(c: Code, s: seq<Ch>, k: Cont, w0: Way, k': Cont, w: Way) returns (k'': Cont)
    requires Going(c, s, k, w0, k', w)
    ensures Going(c, s, k, w0, k'', w) && Normal(k'') && k''.at == k'.at && Weight(k'', w.at) <= Weight(k', w.at)
  {
    hide Order, Placed, Armed, Opened, Weight;
    k'' := Normalize(c, s, k', w);
  }

  /** On to k'' without taking a character. */
  lemma GoingStep(c: Code, s: seq<Ch>, k: Cont, w0: Way, k': Cont, w: Way, k'': Cont)
    requires Going(c, s, k, w0, k', w) && Step(c, s, k', w, k'', w) && Opened(k'') == Opened(k')
    ensures Going(c, s, k, w0, k'', w)
  {
    hide Order, Placed, Armed, Opened, Weight;
  }

  /** On past a frame that matches in one way only, up to m. */
  lemma GoingPast(c: Code, s: seq<Ch>, k: Cont, w0: Way, k': Cont, w: Way, m: nat)
    requires Going(c, s, k, w0, k', w) && k'.K? && !k'.frame.Shut? && FrameWays(k'.frame, s, w) == [Way(m, w.marks)]
    ensures Going(c, s, k, w0, k'.rest, Way(m, w.marks)) && w.at <= m && (m > w.at || Weight(k'.rest, m) < Weight(k', w.at))
  {
    hide FrameWays, Order, OrderAfter, Asm, Has, AltsCode;
    var v := Way(m, w.marks);
    assert v in FrameWays(k'.frame, s, w);
    ArmedAfter(c, k', s, w, v);
    assert Weight(k', w.at) == FrameWeight(k'.frame, w.at) + Weight(k'.rest, w.at);
    PositiveWeight(c, k', w.at);
    hide Weight, Placed, Armed;
    OrderFrame(k', s, w);
    OrderOne(k'.rest, s, v);
  }

  lemma PositiveWeight(c: Code, k: Cont, i: nat)
    requires k.K? && Placed(c, k) && Armed(k, i)
    ensures FrameWeight(k.frame, i) > 0
  {
    hide Asm, Has, AltsCode;
  }

  /** The node of k', which does nothing but lead on. */
  lemma GoingOver(c: Code, s: seq<Ch>, k: Cont, w0: Way, k': Cont, w: Way) returns (k'': Cont)
    requires Going(c, s, k, w0, k', w) && Normal(k') && (c[k'.at] == NOTHING || c[k'.at] == BACK)
    ensures Going(c, s, k, w0, k'', w) && Weight(k'', w.at) < Weight(k', w.at)
    ensures k''.at == if c[k'.at] == BACK then k'.at - Field(c, k'.at) else k'.at + Field(c, k'.at)
  {
    hide Order, Armed, Weight, Field;
    NodeOfFrame(c, k');
    match k'.frame
    case Skip => StepSkip(c, s, k', w); k'' := k'.rest;
    case Back(_, _) => k'' := StepBack(c, s, k', w);
    case PlusBack(_, _) => k'' := StepPlusBack(c, s, k', w);
    GoingStep(c, s, k, w0, k', w, k'');
  }

  /** There is only one choice. */
  lemma GoingOnly(c: Code, s: seq<Ch>, k: Cont, w0: Way, k': Cont, w: Way, cs: seq<Cont>)
    requires Going(c, s, k, w0, k', w) && Chooses(c, s, k', w, cs) && |cs| == 1
    ensures Going(c, s, k, w0, cs[0], w) && Weight(cs[0], w.at) < Weight(k', w.at)
  {
    hide Order, Placed, Armed, Opened, Weight;
    assert Nearer(c, k', w.at, cs[0]);
    assert OrderAll(cs, s, w) == Order(cs[0], s, w) + OrderAll([], s, w);
  }

  // ------------------------------------------------------------- outcomes

  /** What the groups have caught on the way from i to j: of each group both ends, in order,
      or neither; groups that were open at i may have their ends only. */
  ghost predicate Caught(pending: set<nat>, i: nat, sp: seq<int>, ep: seq<int>, j: nat) {
    && |sp| == |ep| == NSUBEXP
    && forall no :: 1 <= no < NSUBEXP ==> CaughtOne(no in pending, i, sp[no], ep[no], j)
  }

  predicate CaughtOne(open: bool, i: nat, start: int, end: int, j: nat) {
    && start >= -1 && (start >= 0 ==> i <= start <= end)
    && (end == -1 || i <= end <= j)
    && (open ==> end >= 0)
    && (end >= 0 && start == -1 ==> open)
  }

  ghost predicate Unset(sp: seq<int>, ep: seq<int>) {
    |sp| == |ep| == NSUBEXP && forall no :: 0 <= no < NSUBEXP ==> sp[no] == -1 == ep[no]
  }

  /** The last mark of a kind. */
  function LastMark(marks: seq<Mark>, opening: bool, no: nat): (p: int)
    ensures p >= -1
  {
    if marks == [] then -1
    else
      var later := LastMark(marks[1..], opening, no);
      if later >= 0 then later
      else if marks[0].opening == opening && marks[0].no == no then marks[0].at else -1
  }

  /** sp and ep are the last marks of each group. */
  ghost predicate Recorded(marks: seq<Mark>, sp: seq<int>, ep: seq<int>) {
    && |sp| == |ep| == NSUBEXP
    && forall no :: 1 <= no < NSUBEXP ==> sp[no] == LastMark(marks, true, no) && ep[no] == LastMark(marks, false, no)
  }

  /** v goes on from w, and its further marks are recorded. */
  ghost predicate Follows(w: Way, v: Way, sp: seq<int>, ep: seq<int>) {
    |w.marks| <= |v.marks| && v.marks[..|w.marks|] == w.marks && Recorded(v.marks[|w.marks|..], sp, ep)
  }

  /** The result r of a match of k from w that ended at j: it is the first of all the ways. */
  ghost predicate Outcome(s: seq<Ch>, k: Cont, w: Way, r: bool, j: nat, sp: seq<int>, ep: seq<int>) {
    if r then
      && w.at <= j <= |s| && Order(k, s, w) != [] && Order(k, s, w)[0].at == j
      && Follows(w, Order(k, s, w)[0], sp, ep) && Caught(Opened(k), w.at, sp, ep, j)
    else Unset(sp, ep) && Order(k, s, w) == []
  }

  lemma OutcomeBefore(c: Code, s: seq<Ch>, k: Cont, w0: Way, k': Cont, w: Way, r: bool, j: nat, sp: seq<int>, ep: seq<int>)
    requires Going(c, s, k, w0, k', w) && Outcome(s, k', w, r, j, sp, ep)
    ensures Outcome(s, k, w0, r, j, sp, ep)
  {
    hide Order, Placed, Armed, Opened, Weight, Recorded;
  }

  lemma OutcomeFail(c: Code, s: seq<Ch>, k: Cont, w0: Way, k': Cont, w: Way, j: nat, sp: seq<int>, ep: seq<int>)
    requires Going(c, s, k, w0, k', w) && k'.K? && Unset(sp, ep) && FrameWays(k'.frame, s, w) == []
    ensures Outcome(s, k, w0, false, j, sp, ep)
  {
    hide Order, OrderAfter, Placed, Armed, Opened, Weight;
    OrderFrame(k', s, w);
    OrderFirst(k'.rest, s, []);
  }

  lemma OutcomeStop(s: seq<Ch>, k: Cont, w: Way, sp: seq<int>, ep: seq<int>)
    requires k.Stop? && w.at <= |s| && Unset(sp, ep)
    ensures Outcome(s, k, w, true, w.at, sp, ep)
  {
  }

  /** The mark m comes before those recorded. */
  lemma RecordedMark(w: Way, m: Mark, v: Way, sp: seq<int>, ep: seq<int>, sp': seq<int>, ep': seq<int>)
    requires 1 <= m.no < NSUBEXP && Follows(Way(w.at, w.marks + [m]), v, sp, ep)
    requires sp' == if m.opening && sp[m.no] == -1 then sp[m.no := m.at] else sp
    requires ep' == if !m.opening && ep[m.no] == -1 then ep[m.no := m.at] else ep
    ensures Follows(w, v, sp', ep')
  {
    var n := |w.marks|;
    var more := v.marks[n..];
    assert v.marks[..n + 1][..n] == v.marks[..n];
    assert v.marks[n] == v.marks[..n + 1][n];
    assert more[0] == m && more[1..] == v.marks[n + 1..];
  }

  /** After the match from inside a group, its start is noted. */
  lemma OutcomeOpen(s: seq<Ch>, k: Cont, k': Cont, no: nat, w: Way, r: bool, j: nat, sp: seq<int>, ep: seq<int>, sp': seq<int>)
    requires 1 <= no < NSUBEXP && Same(s, k, w, k', Marked(w, true, no)) && Opened(k') == {no} + Opened(k)
    requires Outcome(s, k', Marked(w, true, no), r, j, sp, ep)
    requires sp' == if r && sp[no] == -1 then sp[no := w.at] else sp
    ensures Outcome(s, k, w, r, j, sp', ep)
  {
    hide Order, Opened, Follows, Unset;
    if r { RecordedMark(w, Mark(true, no, w.at), Order(k, s, w)[0], sp, ep, sp', ep); }
  }

  /** After the match from behind a group, its end is noted. */
  lemma OutcomeShut(s: seq<Ch>, k: Cont, no: nat, w: Way, r: bool, j: nat, sp: seq<int>, ep: seq<int>, ep': seq<int>)
    requires k.K? && k.frame == Shut(no) && 1 <= no < NSUBEXP && w.at <= |s|
    requires Same(s, k, w, k.rest, Marked(w, false, no)) && Outcome(s, k.rest, Marked(w, false, no), r, j, sp, ep)
    requires ep' == if r && ep[no] == -1 then ep[no := w.at] else ep
    ensures Outcome(s, k, w, r, j, sp, ep')
  {
    hide Order, Follows, Unset;
    if r { RecordedMark(w, Mark(false, no, w.at), Order(k, s, w)[0], sp, ep, sp, ep'); }
  }

  /** The first of the choices of k that succeeds decides, when those before it do not. */
  lemma OutcomeChoice(c: Code, s: seq<Ch>, k: Cont, w: Way, cs: seq<Cont>, o: Cont, more: seq<Cont>, j: nat, sp: seq<int>, ep: seq<int>)
    requires Chooses(c, s, k, w, cs) && OrderAll(cs, s, w) == OrderAll([o] + more, s, w) && Opened(o) == Opened(k)
    requires Outcome(s, o, w, true, j, sp, ep)
    ensures Outcome(s, k, w, true, j, sp, ep)
  {
    hide Order, Follows, Caught, Nearer, Opened;
    assert ([o] + more)[1..] == more;
  }

  lemma OutcomeNoChoice(c: Code, s: seq<Ch>, k: Cont, w: Way, cs: seq<Cont>, j: nat, sp: seq<int>, ep: seq<int>)
    requires Chooses(c, s, k, w, cs) && Unset(sp, ep) && OrderAll(cs, s, w) == []
    ensures Outcome(s, k, w, false, j, sp, ep)
  {
    hide Order, OrderAll, Placed, Armed, Opened, Weight;
  }

  /** A simple loop can be left wherever it has taken enough and no more than there is, and it
      is left later rather than earlier. */
  lemma LoopExits(s: seq<Ch>, k: Cont, w: Way, n: nat)
    requires k.K? && k.frame.One? && (k.frame.r.Star? || k.frame.r.Plus?) && Simple(k.frame.r.r) && Sound(k.frame.r)
    requires Count(k.frame.r.r, s, w.at, n)
    ensures Order(k, s, w) == OrderAfter(k.rest, s, Fewer(w, n, if k.frame.r.Star? then 0 else 1))
  {
    hide Fewer, OrderAfter;
    SimpleRounds(k.frame.r.r, s, w, n);
    StarWays(k.frame.r.r, s, w);
  }

  /** Where the loop of k has taken n characters. */
  lemma LoopExit(c: Code, s: seq<Ch>, k: Cont, w: Way, n: nat)
    requires k.K? && k.frame.One? && (k.frame.r.Star? || k.frame.r.Plus?) && Simple(k.frame.r.r)
    requires n >= if k.frame.r.Star? then 0 else 1
    requires Placed(c, k) && Armed(k, w.at)
    ensures Armed(k.rest, w.at + n) && (n > 0 || Weight(k.rest, w.at + n) < Weight(k, w.at))
  {
    hide Placed;
    assert Wide(k.frame) <==> k.frame.r.Plus?;
    ArmedLater(k.rest, if Wide(k.frame) then w.at + 1 else w.at, w.at + n);
    hide Armed;
  }

  lemma OutcomeExit(s: seq<Ch>, k: Cont, w: Way, n: nat, min: nat, j: nat, sp: seq<int>, ep: seq<int>)
    requires k.K? && !k.frame.Shut? && min <= n && Order(k, s, w) == OrderAfter(k.rest, s, Fewer(w, n, min))
    requires Outcome(s, k.rest, Way(w.at + n, w.marks), true, j, sp, ep)
    ensures Outcome(s, k, w, true, j, sp, ep)
  {
    hide Order, OrderAfter, Recorded;
    OrderFirst(k.rest, s, Fewer(w, n, min));
    assert Opened(k) == Opened(k.rest);
  }

  /** No success where the loop has taken n characters. */
  lemma LoopLess(s: seq<Ch>, k: Cont, w: Way, n: nat, min: nat)
    requires k.K? && min <= n && Order(k, s, w) == OrderAfter(k.rest, s, Fewer(w, n, min))
    requires Order(k.rest, s, Way(w.at + n, w.marks)) == []
    ensures Order(k, s, w) == OrderAfter(k.rest, s, Fewer(w, n - 1, min))
  {
    hide Order, OrderAfter;
    OrderFirst(k.rest, s, Fewer(w, n, min));
  }

  lemma OutcomeNoExit(s: seq<Ch>, k: Cont, w: Way, n: int, min: nat, j: nat, sp: seq<int>, ep: seq<int>)
    requires k.K? && Unset(sp, ep) && n < min && Order(k, s, w) == OrderAfter(k.rest, s, Fewer(w, n, min))
    ensures Outcome(s, k, w, false, j, sp, ep)
  {
    hide Order, OrderAfter;
    OrderFirst(k.rest, s, Fewer(w, n, min));
  }

  lemma OutcomeFailed(s: seq<Ch>, k: Cont, w: Way, j: nat, sp: seq<int>, ep: seq<int>)
    requires Outcome(s, k, w, false, j, sp, ep)
    ensures Unset(sp, ep) && Order(k, s, w) == []
  {
  }

  lemma OutcomeSize(s: seq<Ch>, k: Cont, w: Way, r: bool, j: nat, sp: seq<int>, ep: seq<int>)
    requires Outcome(s, k, w, r, j, sp, ep)
    ensures |sp| == |ep| == NSUBEXP
  {
  }

  lemma ChoicesStart(c: Code, s: seq<Ch>, k: Cont, w: Way, cs: seq<Cont>)
    requires Chooses(c, s, k, w, cs)
    ensures cs != [] && k.at + 2 < |c| && c[k.at] == BRANCH && Field(c, k.at) > 0 && cs[0].at == k.at + 3
    ensures k.at + Field(c, k.at) + 2 < |c| && (c[k.at + Field(c, k.at)] != BRANCH <==> |cs| == 1)
  {
    assert ChoicesAt(c, k.at + Field(c, k.at), cs[1..]);
  }
}
